/** The log reader of `src/logging/analysis/log_analysis.cpp`. */
module LogAnalysis {
  import opened LogText
  import opened Order
  import opened Text

  datatype ParsedLogEntry = ParsedLogEntry(timestamp: string, level: LogLevel, event: string)

  function ParseLevel(text: string): Option<LogLevel> {
    if text == "INFO" then Some(Info)
    else if text == "WARN" then Some(Warning)
    else if text == "ERROR" then Some(Severe)
    else None
  }

  predicate SafeEventName(event: string) {
    && event != [] && |event| <= MAXIMUM_EVENT_LENGTH
    && forall k :: 0 <= k < |event| ==> IsAlnum(event[k]) || event[k] == '-' || event[k] == '_'
  }

  function Parsed(line: string, channel: LogChannel): Option<ParsedLogEntry> {
    var fields := Fields(line);
    if |fields| == 5 && |fields[0]| == 20 && fields[2] == ChannelName(channel) && SafeEventName(fields[3]) then
      match ParseLevel(fields[1])
      case Some(level) => Some(ParsedLogEntry(fields[0], level, fields[3]))
      case None => None
    else None
  }

  method ParseEntry(line: string, channel: LogChannel) returns (entry: Option<ParsedLogEntry>)
    ensures entry == Parsed(line, channel)
  {
    var fields := new string[5](_ => "");
    var field := 0;
    for index := 0 to |line|
      invariant field < 5 && Fields(line[..index]) == fields[..field + 1]
      invariant forall k :: field < k < 5 ==> fields[k] == ""
    {
      assert line[..index + 1][..index] == line[..index];
      if line[index] == '\t' {
        field := field + 1;
        if field >= 5 {
          assert |Fields(line[..index + 1])| == 6;
          FieldsGrow(line, index + 1);
          assert |Fields(line)| > 5 && Parsed(line, channel).None?;
          return None;
        }
      } else {
        fields[field] := fields[field] + [line[index]];
      }
    }
    assert line[..|line|] == line;
    if field != 4 || |fields[0]| != 20 || fields[2] != ChannelName(channel) || !SafeEventName(fields[3]) {
      return None;
    }
    var level := ParseLevel(fields[1]);
    match level {
      case None => return None;
      case Some(l) => return Some(ParsedLogEntry(fields[0], l, fields[3]));
    }
  }

  /** The characters of an event name that the inspection reports. */
  predicate NameCharacter(c: char) {
    c in LOWER_CASE || c in UPPER_CASE || c in DIGITS || c == '-' || c == '_'
  }

  lemma SafeNamesAreListed(event: string)
    ensures SafeEventName(event) <==> 1 <= |event| <= 96 && forall k :: 0 <= k < |event| ==> NameCharacter(event[k])
    ensures SafeEventName(event) ==> '\t' !in event
  {
    forall c ensures IsAlnum(c) <==> c in LOWER_CASE || c in UPPER_CASE || c in DIGITS {
      AlphanumericsAreListed(c);
    }
  }

  lemma LevelsAreNamed(text: string, level: LogLevel)
    ensures ParseLevel(text) == Some(level) <==> text == LevelName(level)
    ensures LevelName(level) == match level { case Info => "INFO" case Warning => "WARN" case Severe => "ERROR" }
    ensures '\t' !in LevelName(level)
  {
  }

  lemma ChannelsAreNamed(channel: LogChannel)
    ensures ChannelName(channel) == match channel { case Operations => "operations" case Audit => "audit"
                                                    case Security => "security" case Error => "error" }
    ensures '\t' !in ChannelName(channel)
  {
  }

  /** The line that has these five fields. */
  function LineOf(e: ParsedLogEntry, channel: LogChannel, detail: string): string {
    JoinFields([e.timestamp,
                match e.level { case Info => "INFO" case Warning => "WARN" case Severe => "ERROR" },
                match channel { case Operations => "operations" case Audit => "audit"
                                case Security => "security" case Error => "error" },
                e.event, detail])
  }

  lemma LineOfReadsBack(e: ParsedLogEntry, channel: LogChannel, detail: string)
    requires '\t' !in e.timestamp && '\t' !in e.event && '\t' !in detail
    ensures Fields(LineOf(e, channel, detail)) == [e.timestamp, LevelName(e.level), ChannelName(channel), e.event, detail]
  {
    LevelsAreNamed("", e.level);
    ChannelsAreNamed(channel);
    FieldsOfJoined([e.timestamp, LevelName(e.level), ChannelName(channel), e.event, detail]);
  }

  lemma ParsedIsALine(line: string, channel: LogChannel)
    requires Parsed(line, channel).Some?
    ensures var e := Parsed(line, channel).value;
            && |e.timestamp| == 20 && '\t' !in e.timestamp && SafeEventName(e.event)
            && '\t' !in Fields(line)[4] && line == LineOf(e, channel, Fields(line)[4])
  {
    var e, fields := Parsed(line, channel).value, Fields(line);
    JoinOfFields(line);
    LevelsAreNamed(fields[1], e.level);
    ChannelsAreNamed(channel);
    assert fields == [e.timestamp, LevelName(e.level), ChannelName(channel), e.event, fields[4]];
  }

  /** A line is an entry exactly when it consists of five fields as they are written, whatever the last one is. */
  lemma ParsedExactly(line: string, channel: LogChannel, e: ParsedLogEntry)
    ensures Parsed(line, channel) == Some(e) <==>
            && |e.timestamp| == 20 && '\t' !in e.timestamp
            && 1 <= |e.event| <= 96 && (forall k :: 0 <= k < |e.event| ==> NameCharacter(e.event[k]))
            && exists detail :: '\t' !in detail && line == LineOf(e, channel, detail)
  {
    SafeNamesAreListed(e.event);
    if Parsed(line, channel) == Some(e) {
      ParsedIsALine(line, channel);
    }
    forall detail | '\t' !in detail && '\t' !in e.timestamp && SafeEventName(e.event) && line == LineOf(e, channel, detail)
      ensures Fields(line) == [e.timestamp, LevelName(e.level), ChannelName(channel), e.event, detail]
    {
      LineOfReadsBack(e, channel, detail);
    }
    LevelsAreNamed(LevelName(e.level), e.level);
  }

  // ----- Counting ------------------------------------------------------------------

  const CHANNELS: seq<LogChannel> := [Operations, Audit, Security, Error]

  /** What looking for one channel's file gave. */
  datatype LogRead = Unlocated | Missing | Unreadable | Content(text: string)

  datatype Tagged = Tagged(channel: LogChannel, entry: ParsedLogEntry)

  type Key = (LogChannel, string)

  function KeyOf(t: Tagged): Key {
    (t.channel, t.entry.event)
  }

  function LineEntry(line: string, channel: LogChannel): seq<Tagged> {
    match Parsed(line, channel)
    case Some(entry) => [Tagged(channel, entry)]
    case None => []
  }

  function LineEntries(lines: seq<string>, channel: LogChannel): seq<Tagged> {
    if lines == [] then []
    else LineEntries(lines[..|lines| - 1], channel) + LineEntry(lines[|lines| - 1], channel)
  }

  function ReadEntries(read: LogRead, channel: LogChannel): seq<Tagged> {
    if read.Content? then LineEntries(Lines(read.text), channel) else []
  }

  /** The entries of the given channels' files, file after file. */
  function AllEntries(logs: LogChannel -> LogRead, channels: seq<LogChannel>): seq<Tagged> {
    if channels == [] then []
    else
      var channel := channels[|channels| - 1];
      AllEntries(logs, channels[..|channels| - 1]) + ReadEntries(logs(channel), channel)
  }

  /** The entries of one level, in order. */
  function WithLevel(all: seq<Tagged>, level: LogLevel): seq<Tagged> {
    if all == [] then []
    else
      var last := all[|all| - 1];
      WithLevel(all[..|all| - 1], level) + if last.entry.level == level then [last] else []
  }

  function CountLevel(all: seq<Tagged>, level: LogLevel): nat {
    |WithLevel(all, level)|
  }

  function Keys(all: seq<Tagged>): seq<Key> {
    seq(|all|, k requires 0 <= k < |all| => KeyOf(all[k]))
  }

  /** How often each event name occurs on each channel. */
  function EventCounts(all: seq<Tagged>): multiset<Key> {
    multiset(Keys(all))
  }

  function FailureCounts(all: seq<Tagged>): multiset<Key> {
    EventCounts(WithLevel(all, Severe))
  }

  /** `latest` is the greatest of the timestamps, or empty. */
  ghost predicate IsLatest(latest: string, all: seq<Tagged>) {
    && (latest == "" || exists k :: 0 <= k < |all| && all[k].entry.timestamp == latest)
    && forall k :: 0 <= k < |all| ==> AtMost(all[k].entry.timestamp, latest)
  }

  /** The diagnostic sentences, by what they say. */
  datatype Diagnosis = NoDiagnosis | StorageUnavailable | LogNotReadable | NoLogsYet | NoErrorEvents

  function Diagnosed(read: LogRead, before: Diagnosis): Diagnosis {
    match read
    case Unlocated => StorageUnavailable
    case Unreadable => LogNotReadable
    case _ => before
  }

  /** The diagnosis of the last channel that could not be located or read. */
  function ReadDiagnosis(logs: LogChannel -> LogRead, channels: seq<LogChannel>): Diagnosis {
    if channels == [] then NoDiagnosis
    else Diagnosed(logs(channels[|channels| - 1]), ReadDiagnosis(logs, channels[..|channels| - 1]))
  }

  datatype Summary = Summary(
    logsAvailable: bool,
    entries: nat,
    warnings: nat,
    errors: nat,
    mostRecentUtc: string,
    frequentEvents: seq<Frequency>,
    recurringFailures: seq<Frequency>,
    diagnosis: Diagnosis)

  datatype Frequency = Frequency(channel: LogChannel, event: string, count: nat)

  // ----- Ranking -------------------------------------------------------------------

  const DISPLAY_LIMIT: nat := 6

  /** `a` may come before `b`: it has the greater count, or as many and an event name no smaller. */
  predicate Before(a: Frequency, b: Frequency) {
    a.count > b.count || (a.count == b.count && AtMost(b.event, a.event))
  }

  lemma BeforeTransitive(a: Frequency, b: Frequency, c: Frequency)
    requires Before(a, b) && Before(b, c)
    ensures Before(a, c)
  {
    if a.count == c.count {
      AtMostTransitive(c.event, b.event, a.event);
    }
  }

  predicate Ranked(output: seq<Frequency>) {
    forall i, j :: 0 <= i < j < |output| ==> Before(output[i], output[j])
  }

  function FrequencyKey(f: Frequency): Key {
    (f.channel, f.event)
  }

  /** Every entry states the true count of its own key, and no key comes twice. */
  ghost predicate TrueCounts(output: seq<Frequency>, counts: multiset<Key>) {
    && (forall i :: 0 <= i < |output| ==> output[i].count == counts[FrequencyKey(output[i])])
    && (forall i, j :: 0 <= i < j < |output| ==> FrequencyKey(output[i]) != FrequencyKey(output[j]))
  }

  ghost predicate Listed(output: seq<Frequency>, key: Key) {
    exists i :: 0 <= i < |output| && FrequencyKey(output[i]) == key
  }

  /** The best ranked keys that occur often enough, at most six; what is left out ranks behind a full list. */
  ghost predicate IsTopRanking(output: seq<Frequency>, counts: multiset<Key>, minimum: nat) {
    && |output| <= 6
    && Ranked(output)
    && TrueCounts(output, counts)
    && (forall i :: 0 <= i < |output| ==> output[i].count >= minimum)
    && (forall key :: key in counts && counts[key] >= minimum ==>
          || Listed(output, key)
          || (|output| == 6 && Before(output[5], Frequency(key.0, key.1, counts[key]))))
  }

  method InsertRanked(ranked: seq<Frequency>, f: Frequency) returns (r: seq<Frequency>)
    requires Ranked(ranked)
    ensures Ranked(r)
    ensures exists n :: 0 <= n <= |ranked| && r == ranked[..n] + [f] + ranked[n..]
  {
    var n := 0;
    while n < |ranked| && Before(ranked[n], f)
      invariant n <= |ranked|
      invariant forall k :: 0 <= k < n ==> Before(ranked[k], f)
    {
      n := n + 1;
    }
    r := ranked[..n] + [f] + ranked[n..];
    if n < |ranked| {
      AtMostTotal(ranked[n].event, f.event);
      forall k | n < k < |ranked| ensures Before(f, ranked[k]) {
        BeforeTransitive(f, ranked[n], ranked[k]);
      }
    }
  }

  /** `output` ranks exactly the frequent keys outside `pending`. */
  ghost predicate RanksAllBut(output: seq<Frequency>, counts: multiset<Key>, minimum: nat, pending: set<Key>) {
    && Ranked(output)
    && TrueCounts(output, counts)
    && (forall i :: 0 <= i < |output| ==> output[i].count >= minimum)
    && forall key :: key in counts && counts[key] >= minimum ==> (Listed(output, key) <==> key !in pending)
  }

  method RankEvents(counts: multiset<Key>, minimum: nat) returns (output: seq<Frequency>)
    requires minimum >= 1
    ensures IsTopRanking(output, counts, minimum)
  {
    output := [];
    var keys := set key | key in counts;
    while keys != {}
      invariant forall key :: key in keys ==> key in counts
      invariant RanksAllBut(output, counts, minimum, keys)
      decreases keys
    {
      var key :| key in keys;
      if counts[key] >= minimum {
        var f := Frequency(key.0, key.1, counts[key]);
        var longer := InsertRanked(output, f);
        RankedOneMore(output, longer, f, counts, minimum, keys);
        output := longer;
      }
      keys := keys - {key};
    }
    if |output| > DISPLAY_LIMIT {
      TopOfRanking(output, counts, minimum);
      output := output[..DISPLAY_LIMIT];
    }
  }

  lemma RankedOneMore(output: seq<Frequency>, longer: seq<Frequency>, f: Frequency,
                      counts: multiset<Key>, minimum: nat, pending: set<Key>)
    requires RanksAllBut(output, counts, minimum, pending) && Ranked(longer)
    requires exists n :: 0 <= n <= |output| && longer == output[..n] + [f] + output[n..]
    requires FrequencyKey(f) in pending && f.count == counts[FrequencyKey(f)] >= minimum >= 1
    ensures RanksAllBut(longer, counts, minimum, pending - {FrequencyKey(f)})
  {
    var n :| 0 <= n <= |output| && longer == output[..n] + [f] + output[n..];
    assert FrequencyKey(f) in counts;
    ListedAfterInsert(output, n, f);
    TrueCountsAfterInsert(output, n, f, counts);
    forall i | 0 <= i < |longer| ensures longer[i].count >= minimum {
      assert longer[i] == if i < n then output[i] else if i == n then f else output[i - 1];
    }
    forall key | key in counts && counts[key] >= minimum
      ensures Listed(longer, key) <==> key !in pending - {FrequencyKey(f)}
    {
    }
  }

  lemma TrueCountsAfterInsert(output: seq<Frequency>, n: nat, f: Frequency, counts: multiset<Key>)
    requires TrueCounts(output, counts) && n <= |output|
    requires f.count == counts[FrequencyKey(f)] && !Listed(output, FrequencyKey(f))
    ensures TrueCounts(output[..n] + [f] + output[n..], counts)
  {
    var longer := output[..n] + [f] + output[n..];
    forall i, j | 0 <= i < j < |longer| ensures FrequencyKey(longer[i]) != FrequencyKey(longer[j]) {
      var a, b := if i < n then i else i - 1, if j < n then j else j - 1;
      assert i != n ==> longer[i] == output[a];
      assert j != n ==> longer[j] == output[b];
    }
  }

  lemma TopOfRanking(output: seq<Frequency>, counts: multiset<Key>, minimum: nat)
    requires RanksAllBut(output, counts, minimum, {}) && |output| > DISPLAY_LIMIT
    ensures IsTopRanking(output[..DISPLAY_LIMIT], counts, minimum)
  {
    var top := output[..DISPLAY_LIMIT];
    forall key | key in counts && counts[key] >= minimum
      ensures Listed(top, key) || Before(top[DISPLAY_LIMIT - 1], Frequency(key.0, key.1, counts[key]))
    {
      assert Listed(output, key);
      var i :| 0 <= i < |output| && FrequencyKey(output[i]) == key;
      if i < DISPLAY_LIMIT {
        assert top[i] == output[i];
      } else {
        assert output[i] == Frequency(key.0, key.1, counts[key]);
      }
    }
  }

  lemma ListedAfterInsert(output: seq<Frequency>, n: nat, f: Frequency)
    requires n <= |output|
    ensures var longer := output[..n] + [f] + output[n..];
            forall key :: Listed(longer, key) <==> Listed(output, key) || key == FrequencyKey(f)
  {
    var longer := output[..n] + [f] + output[n..];
    assert longer[n] == f;
    forall key | Listed(output, key) ensures Listed(longer, key) {
      var i :| 0 <= i < |output| && FrequencyKey(output[i]) == key;
      assert longer[if i < n then i else i + 1] == output[i];
    }
  }

  // ----- The inspection ---------------------------------------------------------------

  /** The running counters. */
  datatype Tally = Tally(entries: nat, warnings: nat, errors: nat, latest: string,
                         events: multiset<Key>, failures: multiset<Key>)

  /** `t` counts exactly the entries `all`. */
  ghost predicate Tallies(t: Tally, all: seq<Tagged>) {
    && t.entries == |all|
    && t.warnings == CountLevel(all, Warning)
    && t.errors == CountLevel(all, Severe)
    && IsLatest(t.latest, all)
    && t.events == EventCounts(all)
    && t.failures == FailureCounts(all)
  }

  method CountEntry(t: Tally, channel: LogChannel, entry: ParsedLogEntry, ghost all: seq<Tagged>) returns (r: Tally)
    requires Tallies(t, all)
    ensures Tallies(r, all + [Tagged(channel, entry)])
  {
    var key := (channel, entry.event);
    r := t.(entries := t.entries + 1, events := t.events + multiset{key});
    if entry.level == Warning {
      r := r.(warnings := r.warnings + 1);
    }
    if entry.level == Severe {
      r := r.(errors := r.errors + 1, failures := r.failures + multiset{key});
    }
    if !AtMost(entry.timestamp, r.latest) {
      r := r.(latest := entry.timestamp);
    }
    LatestSnoc(t.latest, all, Tagged(channel, entry));
    CountsOneMore(all, Tagged(channel, entry));
  }

  lemma CountsOneMore(all: seq<Tagged>, t: Tagged)
    ensures forall level :: CountLevel(all + [t], level) == CountLevel(all, level) + if t.entry.level == level then 1 else 0
    ensures EventCounts(all + [t]) == EventCounts(all) + multiset{KeyOf(t)}
    ensures FailureCounts(all + [t]) ==
            FailureCounts(all) + if t.entry.level == Severe then multiset{KeyOf(t)} else multiset{}
  {
    assert (all + [t])[..|all|] == all;
    assert Keys(all + [t]) == Keys(all) + [KeyOf(t)];
    var severe := WithLevel(all, Severe);
    assert Keys(severe + [t]) == Keys(severe) + [KeyOf(t)];
    assert severe + [] == severe;
  }

  lemma LatestSnoc(latest: string, all: seq<Tagged>, t: Tagged)
    requires IsLatest(latest, all)
    ensures IsLatest(if AtMost(t.entry.timestamp, latest) then latest else t.entry.timestamp, all + [t])
  {
    var stamp, longer := t.entry.timestamp, all + [t];
    assert longer[|all|] == t;
    AtMostTotal(stamp, latest);
    AtMostTotal(stamp, stamp);
    forall k | 0 <= k < |all| ensures AtMost(stamp, latest) || AtMost(all[k].entry.timestamp, stamp) {
      if AtMost(latest, stamp) {
        AtMostTransitive(all[k].entry.timestamp, latest, stamp);
      }
    }
    if latest != "" {
      var k :| 0 <= k < |all| && all[k].entry.timestamp == latest;
      assert longer[k] == all[k];
    }
  }

  /** The inner loop: counts the entries of one file on top of the entries `all` counted so far. */
  method CountLines(t: Tally, channel: LogChannel, lines: seq<string>, ghost all: seq<Tagged>) returns (r: Tally)
    requires Tallies(t, all)
    ensures Tallies(r, all + LineEntries(lines, channel))
  {
    r := t;
    ghost var seen := all;
    for index := 0 to |lines|
      invariant seen == all + LineEntries(lines[..index], channel)
      invariant Tallies(r, seen)
    {
      var parsed := ParseEntry(lines[index], channel);
      LineEntriesSnoc(lines, channel, index);
      ConcatAssociative(all, LineEntries(lines[..index], channel), LineEntry(lines[index], channel));
      if parsed.Some? {
        r := CountEntry(r, channel, parsed.value, seen);
      } else {
        assert seen + [] == seen;
      }
      seen := seen + LineEntry(lines[index], channel);
    }
    assert lines[..|lines|] == lines;
  }

  lemma LineEntriesSnoc(lines: seq<string>, channel: LogChannel, index: nat)
    requires index < |lines|
    ensures LineEntries(lines[..index + 1], channel) == LineEntries(lines[..index], channel) + LineEntry(lines[index], channel)
  {
    assert lines[..index + 1][..index] == lines[..index];
  }

  predicate AnyContent(logs: LogChannel -> LogRead, channels: seq<LogChannel>) {
    channels != [] && (logs(channels[|channels| - 1]).Content? || AnyContent(logs, channels[..|channels| - 1]))
  }

  function FinalDiagnosis(logs: LogChannel -> LogRead, errors: nat): Diagnosis {
    var diagnosis := ReadDiagnosis(logs, CHANNELS);
    if diagnosis != NoDiagnosis then diagnosis
    else if !AnyContent(logs, CHANNELS) then NoLogsYet
    else if errors == 0 then NoErrorEvents
    else NoDiagnosis
  }

  /**
   What the diagnosis says: of the channels that could not be located or read the last one decides; otherwise it is
   that there are no logs yet, or no errors in them, or nothing.
   */
  lemma DiagnosisExactly(logs: LogChannel -> LogRead, errors: nat)
    ensures FinalDiagnosis(logs, errors) ==
            if logs(Error).Unlocated? then StorageUnavailable else if logs(Error).Unreadable? then LogNotReadable
            else if logs(Security).Unlocated? then StorageUnavailable else if logs(Security).Unreadable? then LogNotReadable
            else if logs(Audit).Unlocated? then StorageUnavailable else if logs(Audit).Unreadable? then LogNotReadable
            else if logs(Operations).Unlocated? then StorageUnavailable else if logs(Operations).Unreadable? then LogNotReadable
            else if logs(Operations).Missing? && logs(Audit).Missing? && logs(Security).Missing? && logs(Error).Missing? then NoLogsYet
            else if errors == 0 then NoErrorEvents else NoDiagnosis
  {
    var none: seq<LogChannel> := [];
    DiagnosisOneMore(logs, none, Operations);
    DiagnosisOneMore(logs, none + [Operations], Audit);
    DiagnosisOneMore(logs, none + [Operations] + [Audit], Security);
    DiagnosisOneMore(logs, none + [Operations] + [Audit] + [Security], Error);
    assert none + [Operations] + [Audit] + [Security] + [Error] == CHANNELS;
  }

  lemma DiagnosisOneMore(logs: LogChannel -> LogRead, channels: seq<LogChannel>, channel: LogChannel)
    ensures ReadDiagnosis(logs, channels + [channel]) == Diagnosed(logs(channel), ReadDiagnosis(logs, channels))
    ensures AnyContent(logs, channels + [channel]) <==> logs(channel).Content? || AnyContent(logs, channels)
  {
    assert (channels + [channel])[..|channels|] == channels;
  }

  method CountFile(t: Tally, channel: LogChannel, read: LogRead, ghost all: seq<Tagged>) returns (r: Tally)
    requires Tallies(t, all)
    ensures Tallies(r, all + ReadEntries(read, channel))
  {
    assert all + [] == all;
    if read.Content? {
      r := CountLines(t, channel, Lines(read.text), all);
    } else {
      r := t;
    }
  }

  /** The outer loop, over the channels. */
  method CountChannels(logs: LogChannel -> LogRead, channels: seq<LogChannel>)
    returns (t: Tally, available: bool, diagnosis: Diagnosis)
    ensures Tallies(t, AllEntries(logs, channels))
    ensures available == AnyContent(logs, channels)
    ensures diagnosis == ReadDiagnosis(logs, channels)
  {
    t := Tally(0, 0, 0, "", multiset{}, multiset{});
    available, diagnosis := false, NoDiagnosis;
    for k := 0 to |channels|
      invariant Tallies(t, AllEntries(logs, channels[..k]))
      invariant available == AnyContent(logs, channels[..k])
      invariant diagnosis == ReadDiagnosis(logs, channels[..k])
    {
      var channel := channels[k];
      assert channels[..k + 1][..k] == channels[..k];
      t := CountFile(t, channel, logs(channel), AllEntries(logs, channels[..k]));
      available := available || logs(channel).Content?;
      diagnosis := Diagnosed(logs(channel), diagnosis);
    }
    assert channels[..|channels|] == channels;
  }

  method Inspect(logs: LogChannel -> LogRead) returns (analysis: Summary)
    ensures var all := AllEntries(logs, CHANNELS);
            && analysis.entries == |all|
            && analysis.warnings == CountLevel(all, Warning)
            && analysis.errors == CountLevel(all, Severe)
            && IsLatest(analysis.mostRecentUtc, all)
            && IsTopRanking(analysis.frequentEvents, EventCounts(all), 1)
            && IsTopRanking(analysis.recurringFailures, FailureCounts(all), 2)
    ensures analysis.logsAvailable == AnyContent(logs, CHANNELS)
    ensures analysis.diagnosis == FinalDiagnosis(logs, analysis.errors)
  {
    var t, available, diagnosis := CountChannels(logs, CHANNELS);
    var frequent := RankEvents(t.events, 1);
    var recurring := RankEvents(t.failures, 2);
    if !available && diagnosis == NoDiagnosis {
      diagnosis := NoLogsYet;
    }
    if available && t.errors == 0 && diagnosis == NoDiagnosis {
      diagnosis := NoErrorEvents;
    }
    analysis := Summary(available, t.entries, t.warnings, t.errors, t.latest, frequent, recurring, diagnosis);
  }

  // ----- The pipeline: what was recorded is what is reported ----------------------------

  /** One successful `record` call. */
  datatype Recorded = Recorded(timestamp: string, event: LogEvent)

  predicate LogTimestamp(timestamp: string) {
    |timestamp| == 20 && '\t' !in timestamp && '\n' !in timestamp
  }

  /** The entry a call is reported as: none when its redacted event name is not a safe one. */
  function ReportedCall(call: Recorded): seq<Tagged> {
    var event := Redacted(call.event.event, MAXIMUM_EVENT_LENGTH);
    if SafeEventName(event)
    then [Tagged(call.event.channel, ParsedLogEntry(call.timestamp, call.event.level, event))]
    else []
  }

  function ReportedOn(run: seq<Recorded>, channel: LogChannel): seq<Tagged> {
    if run == [] then []
    else
      var last := run[|run| - 1];
      ReportedOn(run[..|run| - 1], channel) + if last.event.channel == channel then ReportedCall(last) else []
  }

  function TabJoined(a: string, b: string, c: string, d: string, e: string): string {
    a + "\t" + b + "\t" + c + "\t" + d + "\t" + e
  }

  lemma FieldsOfTabJoined(a: string, b: string, c: string, d: string, e: string)
    requires '\t' !in a && '\t' !in b && '\t' !in c && '\t' !in d && '\t' !in e
    ensures Fields(TabJoined(a, b, c, d, e)) == [a, b, c, d, e]
  {
    FieldsWithoutTabs(a);
    FieldsAfterTab(a, b);
    FieldsAfterTab(a + "\t" + b, c);
    FieldsAfterTab(a + "\t" + b + "\t" + c, d);
    FieldsAfterTab(a + "\t" + b + "\t" + c + "\t" + d, e);
  }

  /** The formatted line without its newline. */
  function LogLine(call: Recorded): string {
    TabJoined(call.timestamp, LevelName(call.event.level), ChannelName(call.event.channel),
              Redacted(call.event.event, MAXIMUM_EVENT_LENGTH), Redacted(call.event.detail, MAXIMUM_DETAIL_LENGTH))
  }

  lemma RedactedIsOneField(value: string, maximum: nat)
    ensures '\t' !in Redacted(value, maximum) && '\n' !in Redacted(value, maximum)
  {
    RedactedIsClean(value, 0, maximum);
  }

  lemma FormattedIsALine(call: Recorded)
    requires LogTimestamp(call.timestamp)
    ensures FormatLogEvent(call.timestamp, call.event) == LogLine(call) + "\n" && '\n' !in LogLine(call)
  {
    RedactedIsOneField(call.event.event, MAXIMUM_EVENT_LENGTH);
    RedactedIsOneField(call.event.detail, MAXIMUM_DETAIL_LENGTH);
  }

  /** `parse_entry` undoes `format_log_event`, whatever the detail string was. */
  lemma ParseInvertsFormat(call: Recorded)
    requires LogTimestamp(call.timestamp)
    ensures LineEntry(LogLine(call), call.event.channel) == ReportedCall(call)
  {
    RedactedIsOneField(call.event.event, MAXIMUM_EVENT_LENGTH);
    RedactedIsOneField(call.event.detail, MAXIMUM_DETAIL_LENGTH);
    FieldsOfTabJoined(call.timestamp, LevelName(call.event.level), ChannelName(call.event.channel),
                      Redacted(call.event.event, MAXIMUM_EVENT_LENGTH), Redacted(call.event.detail, MAXIMUM_DETAIL_LENGTH));
    assert ParseLevel(LevelName(call.event.level)) == Some(call.event.level);
  }

  /** The fields of a line as it is written. */
  lemma WrittenFields(call: Recorded)
    requires LogTimestamp(call.timestamp)
    ensures FormatLogEvent(call.timestamp, call.event) == LogLine(call) + "\n"
    ensures var fields := Fields(LogLine(call));
            && |fields| == 5 && fields[0] == call.timestamp
            && fields[1] == (match call.event.level { case Info => "INFO" case Warning => "WARN" case Severe => "ERROR" })
            && fields[2] == (match call.event.channel { case Operations => "operations" case Audit => "audit"
                                                        case Security => "security" case Error => "error" })
            && fields[3] == Redacted(call.event.event, 96) && fields[4] == Redacted(call.event.detail, 512)
  {
    FormattedIsALine(call);
    RedactedIsOneField(call.event.event, MAXIMUM_EVENT_LENGTH);
    RedactedIsOneField(call.event.detail, MAXIMUM_DETAIL_LENGTH);
    FieldsOfTabJoined(call.timestamp, LevelName(call.event.level), ChannelName(call.event.channel),
                      Redacted(call.event.event, MAXIMUM_EVENT_LENGTH), Redacted(call.event.detail, MAXIMUM_DETAIL_LENGTH));
  }

  // ----- Counting a whole run -----------------------------------------------------------

  function Reported(run: seq<Recorded>): seq<Tagged> {
    if run == [] then [] else Reported(run[..|run| - 1]) + ReportedCall(run[|run| - 1])
  }

  /** Every counter of the inspection agrees on `a` and `b`. */
  ghost predicate SameCounts(a: seq<Tagged>, b: seq<Tagged>) {
    && |a| == |b|
    && (forall level :: CountLevel(a, level) == CountLevel(b, level))
    && EventCounts(a) == EventCounts(b)
    && FailureCounts(a) == FailureCounts(b)
  }

  lemma {:induction false} WithLevelAppend(a: seq<Tagged>, b: seq<Tagged>, level: LogLevel)
    ensures WithLevel(a + b, level) == WithLevel(a, level) + WithLevel(b, level)
  {
    if b == [] {
      assert a + b == a;
    } else {
      var init, last := b[..|b| - 1], b[|b| - 1];
      WithLevelAppend(a, init, level);
      assert (a + b)[..|a + b| - 1] == a + init;
    }
  }

  lemma EventCountsAppend(a: seq<Tagged>, b: seq<Tagged>)
    ensures EventCounts(a + b) == EventCounts(a) + EventCounts(b)
  {
    assert Keys(a + b) == Keys(a) + Keys(b);
  }

  /** Every counter is the sum of the counters of the parts. */
  lemma CountsOfSum(a: seq<Tagged>, b: seq<Tagged>)
    ensures forall level :: CountLevel(a + b, level) == CountLevel(a, level) + CountLevel(b, level)
    ensures EventCounts(a + b) == EventCounts(a) + EventCounts(b)
    ensures FailureCounts(a + b) == FailureCounts(a) + FailureCounts(b)
  {
    forall level ensures WithLevel(a + b, level) == WithLevel(a, level) + WithLevel(b, level) {
      WithLevelAppend(a, b, level);
    }
    EventCountsAppend(a, b);
    EventCountsAppend(WithLevel(a, Severe), WithLevel(b, Severe));
  }

  /** Inserting `x` anywhere adds the same to every counter. */
  lemma SameCountsInsert(a: seq<Tagged>, x: seq<Tagged>, b: seq<Tagged>, whole: seq<Tagged>)
    requires SameCounts(a + b, whole)
    ensures SameCounts((a + x) + b, whole + x)
  {
    CountsOfSum(a + x, b);
    CountsOfSum(a, x);
    CountsOfSum(a, b);
    CountsOfSum(whole, x);
  }

  function PerChannel(run: seq<Recorded>): seq<Tagged> {
    ReportedOn(run, Operations) + ReportedOn(run, Audit) + ReportedOn(run, Security) + ReportedOn(run, Error)
  }

  lemma SameCountsInsertOfFour(a: seq<Tagged>, b: seq<Tagged>, c: seq<Tagged>, d: seq<Tagged>, x: seq<Tagged>,
                               whole: seq<Tagged>)
    requires SameCounts(a + b + c + d, whole)
    ensures SameCounts(a + x + b + c + d, whole + x)
    ensures SameCounts(a + (b + x) + c + d, whole + x)
    ensures SameCounts(a + b + (c + x) + d, whole + x)
    ensures SameCounts(a + b + c + (d + x), whole + x)
  {
    assert a + b + c + d == a + (b + c + d) == (a + b) + (c + d) == (a + b + c + d) + [];
    SameCountsInsert(a, x, b + c + d, whole);
    SameCountsInsert(a + b, x, c + d, whole);
    SameCountsInsert(a + b + c, x, d, whole);
    SameCountsInsert(a + b + c + d, x, [], whole);
    assert a + x + b + c + d == (a + x) + (b + c + d);
    assert a + (b + x) + c + d == (a + b + x) + (c + d);
    assert a + b + (c + x) + d == (a + b + c + x) + d;
    assert a + b + c + (d + x) == (a + b + c + d + x) + [];
  }

  /** Sorting the calls by channel leaves every counter as it was. */
  lemma {:induction false} PerChannelCounts(run: seq<Recorded>)
    ensures SameCounts(PerChannel(run), Reported(run))
  {
    if run != [] {
      var init, last := run[..|run| - 1], run[|run| - 1];
      var x := ReportedCall(last);
      PerChannelCounts(init);
      forall channel
        ensures ReportedOn(run, channel) ==
                if last.event.channel == channel then ReportedOn(init, channel) + x else ReportedOn(init, channel)
      {
        assert ReportedOn(init, channel) + [] == ReportedOn(init, channel);
      }
      SameCountsInsertOfFour(ReportedOn(init, Operations), ReportedOn(init, Audit), ReportedOn(init, Security),
                             ReportedOn(init, Error), x, Reported(init));
    }
  }

  lemma AllEntriesSnoc(logs: LogChannel -> LogRead, channels: seq<LogChannel>, channel: LogChannel)
    ensures AllEntries(logs, channels + [channel]) == AllEntries(logs, channels) + ReadEntries(logs(channel), channel)
  {
    assert (channels + [channel])[..|channels|] == channels;
  }

  lemma AllEntriesOfFour(logs: LogChannel -> LogRead)
    ensures AllEntries(logs, CHANNELS) ==
            ReadEntries(logs(Operations), Operations) + ReadEntries(logs(Audit), Audit) +
            ReadEntries(logs(Security), Security) + ReadEntries(logs(Error), Error)
  {
    var none: seq<LogChannel>, nothing: seq<Tagged> := [], [];
    AllEntriesSnoc(logs, none, Operations);
    AllEntriesSnoc(logs, none + [Operations], Audit);
    AllEntriesSnoc(logs, none + [Operations] + [Audit], Security);
    AllEntriesSnoc(logs, none + [Operations] + [Audit] + [Security], Error);
    assert none + [Operations] + [Audit] + [Security] + [Error] == CHANNELS;
    assert nothing + ReadEntries(logs(Operations), Operations) == ReadEntries(logs(Operations), Operations);
  }

  /** A call whose event name is a safe one, with no key in it. */
  predicate NamedSafely(call: Recorded) {
    SafeEventName(call.event.event) && Clean(call.event.event)
  }

  /** What a reader of the run itself would count for one call. */
  function AsRecorded(run: seq<Recorded>): seq<Tagged> {
    seq(|run|, k requires 0 <= k < |run| =>
      Tagged(run[k].event.channel, ParsedLogEntry(run[k].timestamp, run[k].event.level, run[k].event.event)))
  }

  lemma {:induction false} SafeCallsAreReported(run: seq<Recorded>)
    requires forall k :: 0 <= k < |run| ==> NamedSafely(run[k])
    ensures Reported(run) == AsRecorded(run)
  {
    if run != [] {
      var init, last := run[..|run| - 1], run[|run| - 1];
      SafeCallsAreReported(init);
      assert NamedSafely(last);
      KeptExactlyWhenClean(last.event.event, MAXIMUM_EVENT_LENGTH);
      assert AsRecorded(run) == AsRecorded(init) + ReportedCall(last);
    }
  }
}
