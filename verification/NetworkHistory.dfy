/** The bounded observation history of `src/network/network_history.cpp`, for a single writer. */
module NetworkHistory {
  import opened Text

  const MAXIMUM_RECORDS: nat := 512
  const MAXIMUM_BYTES: nat := 256 * 1024

  datatype NetworkMetadata = NetworkMetadata(
    observedAtUtc: string, publicIp: string, defaultInterface: string, defaultGateway: string,
    connectionProfile: string, wifiSsid: string, wifiBssid: string, wifiSecurity: string,
    country: string, timezone: string, isp: string, autonomousSystem: string)

  /** Control characters become spaces, so a field cannot break its record. */
  function HistoryField(value: string): (field: string)
    ensures |field| == |value|
    ensures '\t' !in field && '\n' !in field
    ensures forall k :: 0 <= k < |value| ==>
              field[k] == if value[k] as int < 32 || value[k] as int == 127 then ' ' else value[k]
  {
    seq(|value|, k requires 0 <= k < |value| =>
      if Control(value[k]) then ' ' else value[k])
  }

  /** The thirteen fields of a record. */
  function RecordFields(m: NetworkMetadata, vpnActive: bool): (fields: seq<string>)
    ensures forall k :: 0 <= k < |fields| ==> '\t' !in fields[k] && '\n' !in fields[k]
  {
    [HistoryField(m.observedAtUtc), HistoryField(m.publicIp), HistoryField(m.defaultInterface),
     HistoryField(m.defaultGateway), HistoryField(m.connectionProfile), HistoryField(m.wifiSsid),
     HistoryField(m.wifiBssid), HistoryField(m.wifiSecurity), HistoryField(m.country), HistoryField(m.timezone),
     HistoryField(m.isp), HistoryField(m.autonomousSystem), if vpnActive then "active" else "inactive"]
  }

  /** One record, without its newline. */
  function RecordLine(m: NetworkMetadata, vpnActive: bool): (line: string)
    ensures line != [] && '\n' !in line
  {
    JoinFields(RecordFields(m, vpnActive))
  }

  predicate AreFieldsOf(fields: seq<string>, m: NetworkMetadata, vpnActive: bool) {
    && |fields| == 13
    && fields[0] == HistoryField(m.observedAtUtc) && fields[1] == HistoryField(m.publicIp)
    && fields[2] == HistoryField(m.defaultInterface) && fields[3] == HistoryField(m.defaultGateway)
    && fields[4] == HistoryField(m.connectionProfile) && fields[5] == HistoryField(m.wifiSsid)
    && fields[6] == HistoryField(m.wifiBssid) && fields[7] == HistoryField(m.wifiSecurity)
    && fields[8] == HistoryField(m.country) && fields[9] == HistoryField(m.timezone)
    && fields[10] == HistoryField(m.isp) && fields[11] == HistoryField(m.autonomousSystem)
    && (vpnActive ==> fields[12] == "active") && (!vpnActive ==> fields[12] == "inactive")
  }

  lemma FieldsAreInOrder(m: NetworkMetadata, vpnActive: bool)
    ensures AreFieldsOf(RecordFields(m, vpnActive), m, vpnActive)
  {
  }

  /** Whatever the metadata held, its record splits into the thirteen fields again. */
  lemma RecordSplitsIntoItsFields(m: NetworkMetadata, vpnActive: bool)
    ensures AreFieldsOf(Fields(RecordLine(m, vpnActive)), m, vpnActive)
  {
    FieldsAreInOrder(m, vpnActive);
    FieldsOfJoined(RecordFields(m, vpnActive));
  }

  // ----- Retention as a queue -----------------------------------------------------

  /** The last `n` elements, or all of them. */
  function Newest<T>(s: seq<T>, n: nat): seq<T> {
    if |s| <= n then s else s[|s| - n..]
  }

  function Nonempty(lines: seq<string>): (records: seq<string>)
    ensures forall k :: 0 <= k < |records| ==> records[k] in lines && records[k] != []
  {
    if lines == [] then []
    else
      var last := lines[|lines| - 1];
      Nonempty(lines[..|lines| - 1]) + if last == [] then [] else [last]
  }

  /** The records a file holds. */
  function Records(content: string): seq<string> {
    Nonempty(Lines(content))
  }

  /** How many of the newest records fit into `MAXIMUM_BYTES`, newest first, after `used` bytes. */
  function FittingCount(records: seq<string>, used: nat): (n: nat)
    ensures n <= |records|
  {
    if records == [] then 0
    else
      var bytes := |records[|records| - 1]| + 1;
      if used + bytes > MAXIMUM_BYTES then 0
      else 1 + FittingCount(records[..|records| - 1], used + bytes)
  }

  /** What stays of the records `q` when one more is about to come. */
  function Kept(q: seq<string>): seq<string> {
    var newest := Newest(q, MAXIMUM_RECORDS - 1);
    Newest(newest, FittingCount(newest, 0))
  }

  function Retained(content: string): string {
    JoinLines(Kept(Records(content)))
  }

  lemma {:induction false} NonemptyOfNonempty(lines: seq<string>)
    requires forall k :: 0 <= k < |lines| ==> lines[k] != []
    ensures Nonempty(lines) == lines
  {
    if lines != [] {
      NonemptyOfNonempty(lines[..|lines| - 1]);
    }
  }

  /** Records: nonempty lines. A file made of records reads back as those records. */
  predicate AreRecords(q: seq<string>) {
    forall k :: 0 <= k < |q| ==> q[k] != [] && '\n' !in q[k]
  }

  lemma RecordsOfJoined(q: seq<string>)
    requires AreRecords(q)
    ensures Records(JoinLines(q)) == q
  {
    LinesOfJoined(q);
    NonemptyOfNonempty(q);
  }

  /** The size of a file of these records. */
  function Bytes(records: seq<string>): nat {
    if records == [] then 0 else Bytes(records[..|records| - 1]) + |records[|records| - 1]| + 1
  }

  lemma {:induction false} BytesOfJoined(records: seq<string>)
    ensures |JoinLines(records)| == Bytes(records)
  {
    if records != [] {
      var init, last := records[..|records| - 1], records[|records| - 1];
      BytesOfJoined(init);
      JoinLinesSnoc(init, last);
      assert records == init + [last];
    }
  }

  lemma BytesOfNewest(records: seq<string>, n: nat)
    requires 0 < n <= |records|
    ensures Bytes(Newest(records, n)) == Bytes(Newest(records[..|records| - 1], n - 1)) + |records[|records| - 1]| + 1
  {
    var init, some := records[..|records| - 1], Newest(records, n);
    assert some[..|some| - 1] == Newest(init, n - 1);
  }

  /** The bytes of the newest `n` records. */
  function NewestBytes(records: seq<string>, n: nat): nat
    requires n <= |records|
  {
    if n == 0 then 0 else NewestBytes(records[..|records| - 1], n - 1) + |records[|records| - 1]| + 1
  }

  lemma {:induction false} NewestBytesAreBytes(records: seq<string>, n: nat)
    requires n <= |records|
    ensures NewestBytes(records, n) == Bytes(Newest(records, n))
  {
    if n > 0 {
      NewestBytesAreBytes(records[..|records| - 1], n - 1);
      BytesOfNewest(records, n);
    }
  }

  lemma {:induction false} FittingCountIsMaximal(records: seq<string>, used: nat)
    requires used <= MAXIMUM_BYTES
    ensures var n := FittingCount(records, used);
            && used + NewestBytes(records, n) <= MAXIMUM_BYTES
            && (n < |records| ==> used + NewestBytes(records, n + 1) > MAXIMUM_BYTES)
  {
    if records != [] && used + |records[|records| - 1]| + 1 <= MAXIMUM_BYTES {
      FittingCountIsMaximal(records[..|records| - 1], used + |records[|records| - 1]| + 1);
    }
  }

  lemma FittingCountIsLongest(records: seq<string>)
    ensures var n := FittingCount(records, 0);
            && NewestBytes(records, n) == Bytes(Newest(records, n)) <= MAXIMUM_BYTES
            && (n < |records| ==> NewestBytes(records, n + 1) == Bytes(Newest(records, n + 1)) > MAXIMUM_BYTES)
  {
    FittingCountIsMaximal(records, 0);
    forall n | 0 <= n <= |records| ensures NewestBytes(records, n) == Bytes(Newest(records, n)) {
      NewestBytesAreBytes(records, n);
    }
  }

  /** Retention keeps the longest suffix of the newest 511 records that fits into 256 KiB. */
  lemma KeptIsTheLongestFittingSuffix(q: seq<string>)
    ensures var newest := Newest(q, 511);
            exists n: nat ::
              && n <= |newest| && Kept(q) == Newest(newest, n)
              && |JoinLines(Newest(newest, n))| <= 262_144
              && (n < |newest| ==> |JoinLines(Newest(newest, n + 1))| > 262_144)
  {
    var newest := Newest(q, MAXIMUM_RECORDS - 1);
    var n := FittingCount(newest, 0);
    FittingCountIsLongest(newest);
    BytesOfJoined(Newest(newest, n));
    BytesOfJoined(Newest(newest, n + 1));
  }

  lemma NewestSnoc<T>(s: seq<T>, x: T, n: nat)
    requires n > 0
    ensures Newest(s + [x], n) == if |Newest(s, n)| == n then (Newest(s, n) + [x])[1..] else Newest(s, n) + [x]
  {
  }

  lemma NonemptySnoc(lines: seq<string>, index: nat)
    requires index < |lines|
    ensures Nonempty(lines[..index + 1]) == Nonempty(lines[..index]) + if lines[index] == [] then [] else [lines[index]]
  {
    assert lines[..index + 1][..index] == lines[..index];
  }

  /** What is collected after `index` lines. */
  function Collected(lines: seq<string>, index: nat): seq<string>
    requires index <= |lines|
  {
    Newest(Nonempty(lines[..index]), MAXIMUM_RECORDS - 1)
  }

  lemma CollectedOneMore(lines: seq<string>, index: nat)
    requires index < |lines|
    ensures Collected(lines, index + 1) ==
            if lines[index] == [] then Collected(lines, index)
            else if |Collected(lines, index)| + 1 >= MAXIMUM_RECORDS then (Collected(lines, index) + [lines[index]])[1..]
            else Collected(lines, index) + [lines[index]]
  {
    NonemptySnoc(lines, index);
    var before := Nonempty(lines[..index]);
    NewestSnoc(before, lines[index], MAXIMUM_RECORDS - 1);
    assert before + [] == before;
  }

  lemma JoinLinesFrom(lines: seq<string>, k: nat)
    requires k < |lines|
    ensures JoinLines(lines[k..]) == lines[k] + "\n" + JoinLines(lines[k + 1..])
  {
    assert lines[k..][1..] == lines[k + 1..];
  }

  method CollectRecords(content: string) returns (records: seq<string>)
    ensures records == Newest(Records(content), MAXIMUM_RECORDS - 1)
  {
    var lines := Lines(content);
    records := [];
    for index := 0 to |lines|
      invariant records == Collected(lines, index)
    {
      CollectedOneMore(lines, index);
      if lines[index] == [] {
        continue;
      }
      records := records + [lines[index]];
      if |records| >= MAXIMUM_RECORDS {
        records := records[1..];
      }
    }
    assert lines[..|lines|] == lines;
  }

  /** `retained` joins the records from `k` on, and how many more fit is still open. */
  ghost predicate Joining(records: seq<string>, k: nat, retained: string) {
    && k <= |records|
    && retained == JoinLines(records[k..])
    && FittingCount(records, 0) == |records| - k + FittingCount(records[..k], |retained|)
  }

  lemma JoiningOneMore(records: seq<string>, k: nat, retained: string)
    requires Joining(records, k, retained) && k > 0
    requires |retained| + |records[k - 1]| + 1 <= MAXIMUM_BYTES
    ensures Joining(records, k - 1, records[k - 1] + "\n" + retained)
  {
    FittingCountStep(records, k, |retained|);
    JoinLinesFrom(records, k - 1);
  }

  lemma JoiningDone(records: seq<string>, k: nat, retained: string)
    requires Joining(records, k, retained)
    requires k == 0 || |retained| + |records[k - 1]| + 1 > MAXIMUM_BYTES
    ensures retained == JoinLines(Newest(records, FittingCount(records, 0)))
  {
    if k > 0 {
      FittingCountStep(records, k, |retained|);
    }
    assert records[k..] == Newest(records, FittingCount(records, 0));
  }

  method RetainRecentRecords(content: string) returns (retained: string)
    ensures retained == Retained(content)
  {
    var records := CollectRecords(content);
    retained := "";
    var k := |records|;
    assert records[..k] == records;
    while k > 0
      invariant k >= 0 && Joining(records, k, retained)
    {
      if |retained| + |records[k - 1]| + 1 > MAXIMUM_BYTES {
        break;
      }
      JoiningOneMore(records, k, retained);
      retained := records[k - 1] + "\n" + retained;
      k := k - 1;
    }
    JoiningDone(records, k, retained);
  }

  lemma FittingCountStep(records: seq<string>, k: nat, used: nat)
    requires 0 < k <= |records|
    ensures var bytes := |records[k - 1]| + 1;
            FittingCount(records[..k], used) ==
            if used + bytes > MAXIMUM_BYTES then 0 else 1 + FittingCount(records[..k - 1], used + bytes)
  {
    assert records[..k][..k - 1] == records[..k - 1];
  }

  // ----- The store ------------------------------------------------------------------

  /** What became of a write: when it failed, how many bytes of an append stayed, or whether a replacement did. */
  datatype WriteOutcome = Stored | Failed(appended: nat, replaced: bool)

  /** A file that `append` can read: present, and at most four times the limit. */
  predicate Readable(file: Option<string>) {
    file.Some? && |file.value| <= 4 * MAXIMUM_BYTES
  }

  /** The queue a successful append of `line` leaves. */
  function QueueAfter(file: Option<string>, line: string): seq<string> {
    KeptOf(file) + [line]
  }

  function FileAfter(file: Option<string>, line: string): string {
    JoinLines(QueueAfter(file, line))
  }

  function CountNewlines(s: string): nat {
    if s == [] then 0 else (if s[0] == '\n' then 1 else 0) + CountNewlines(s[1..])
  }

  /** Of an append that failed, a beginning of the record stayed. */
  predicate TornAppend(before: Option<string>, after: Option<string>, record: string) {
    before.Some? && exists n: nat :: n <= |record| && after == Some(before.value + record[..n])
  }

  class NetworkHistoryStore {
    /** The content of `network-history.tsv`, if it exists. */
    var file: Option<string>

    constructor ()
      ensures file == None
    {
      file := None;
    }

    method Append(metadata: NetworkMetadata, vpnActive: bool, readFails: bool, outcome: WriteOutcome) returns (ok: bool)
      modifies this
      ensures ok <==> !readFails && outcome == Stored
      ensures ok ==> file == Some(FileAfter(old(file), RecordLine(metadata, vpnActive)))
      ensures readFails ==> file == old(file)
      ensures !ok ==> || file == old(file)
                      || file == Some(FileAfter(old(file), RecordLine(metadata, vpnActive)))
                      || TornAppend(old(file), file, RecordLine(metadata, vpnActive) + "\n")
    {
      var record := RecordLine(metadata, vpnActive) + "\n";
      if readFails {
        return false;
      }
      var retained := "";
      if Readable(file) {
        retained := RetainRecentRecords(file.value);
      }
      var compact := !Readable(file) || retained != file.value || CountNewlines(file.value) >= MAXIMUM_RECORDS
                     || |retained| + |record| > MAXIMUM_BYTES;
      FileAfterIsRetainedAndRecord(file, RecordLine(metadata, vpnActive));
      match outcome {
        case Stored =>
          file := Some(if compact then retained + record else file.value + record);
          return true;
        case Failed(appended, replaced) =>
          if compact && replaced {
            file := Some(retained + record);
          } else if !compact {
            file := Some(file.value + record[..Min(appended, |record|)]);
          }
          return false;
      }
    }

    /** The records of a file within the size limit, oldest first. */
    method ReadRecent() returns (records: Option<seq<string>>)
      ensures records == RecentRecords(file)
    {
      if file == None || |file.value| > MAXIMUM_BYTES {
        return None;
      }
      var lines := Lines(file.value);
      var found: seq<string> := [];
      for index := 0 to |lines|
        invariant found == Nonempty(lines[..index])
      {
        NonemptySnoc(lines, index);
        if lines[index] != [] {
          found := found + [lines[index]];
        }
      }
      assert lines[..|lines|] == lines;
      return Some(found);
    }
  }

  function RecentRecords(file: Option<string>): Option<seq<string>> {
    if file.Some? && |file.value| <= MAXIMUM_BYTES then Some(Records(file.value)) else None
  }

  lemma FileAfterIsRetainedAndRecord(file: Option<string>, line: string)
    ensures FileAfter(file, line) == (if Readable(file) then Retained(file.value) else "") + (line + "\n")
  {
    JoinLinesSnoc(if Readable(file) then Kept(Records(file.value)) else [], line);
  }

  // ----- The file is the queue ----------------------------------------------------------

  /** The records that a successful append keeps beside the new one. */
  function KeptOf(file: Option<string>): seq<string> {
    if Readable(file) then Kept(Records(file.value)) else []
  }

  lemma KeptIsBounded(file: Option<string>)
    ensures AreRecords(KeptOf(file)) && |KeptOf(file)| < MAXIMUM_RECORDS
    ensures |JoinLines(KeptOf(file))| == Bytes(KeptOf(file)) <= MAXIMUM_BYTES
  {
    BytesOfJoined(KeptOf(file));
    if Readable(file) {
      KeptIsTheLongestFittingSuffix(Records(file.value));
    }
  }

  /** A successful append leaves well-formed records within both limits, the new record's bytes apart. */
  lemma AppendKeepsTheBounds(file: Option<string>, line: string)
    requires line != [] && '\n' !in line
    ensures Records(FileAfter(file, line)) == QueueAfter(file, line)
    ensures QueueAfter(file, line) == (if file.Some? && |file.value| <= 1_048_576 then Kept(Records(file.value)) else []) + [line]
    ensures |QueueAfter(file, line)| <= 512
    ensures |FileAfter(file, line)| == Bytes(KeptOf(file)) + |line| + 1 <= 262_144 + |line| + 1
  {
    var kept := KeptOf(file);
    KeptIsBounded(file);
    assert AreRecords(kept + [line]);
    RecordsOfJoined(kept + [line]);
    JoinLinesSnoc(kept, line);
  }

  /** `read_recent` refuses a file that compaction left too large: exactly when what was kept leaves no room. */
  lemma ReadableAfterAppendExactly(file: Option<string>, line: string)
    requires line != [] && '\n' !in line
    ensures RecentRecords(Some(FileAfter(file, line))) ==
            if Bytes(KeptOf(file)) + |line| + 1 <= 262_144 then Some(KeptOf(file) + [line]) else None
  {
    AppendKeepsTheBounds(file, line);
  }

  /** The file after successful appends of `lines` to no file. */
  function FileOfRun(lines: seq<string>): Option<string> {
    if lines == [] then None
    else Some(FileAfter(FileOfRun(lines[..|lines| - 1]), lines[|lines| - 1]))
  }

  /** Records of at most 512 bytes, newline included. */
  predicate Small(q: seq<string>) {
    forall k :: 0 <= k < |q| ==> |q[k]| + 1 <= 512
  }

  lemma {:induction false} BytesOfSmall(q: seq<string>)
    requires Small(q)
    ensures Bytes(q) <= 512 * |q|
  {
    if q != [] {
      BytesOfSmall(q[..|q| - 1]);
    }
  }

  lemma {:induction false} SmallRecordsFitWhole(records: seq<string>, used: nat)
    requires Small(records) && used + 512 * |records| <= MAXIMUM_BYTES
    ensures FittingCount(records, used) == |records|
  {
    if records != [] {
      var init, last := records[..|records| - 1], records[|records| - 1];
      SmallRecordsFitWhole(init, used + |last| + 1);
    }
  }

  lemma SmallRecordsAllFit(q: seq<string>)
    requires Small(q)
    ensures Kept(q) == Newest(q, MAXIMUM_RECORDS - 1)
  {
    SmallRecordsFitWhole(Newest(q, MAXIMUM_RECORDS - 1), 0);
  }

  lemma NewestOfNewest<T>(s: seq<T>, x: T, n: nat)
    requires n > 0
    ensures Newest(Newest(s, n), n - 1) + [x] == Newest(s + [x], n)
  {
  }

  lemma SmallAppendReadsBack(file: Option<string>, q: seq<string>, line: string)
    requires (q == [] && file == None) || RecentRecords(file) == Some(q)
    requires Small(q) && |line| + 1 <= 512
    requires line != [] && '\n' !in line
    ensures RecentRecords(Some(FileAfter(file, line))) == Some(Newest(q, MAXIMUM_RECORDS - 1) + [line])
  {
    var kept := Newest(q, MAXIMUM_RECORDS - 1);
    SmallRecordsAllFit(q);
    BytesOfSmall(kept);
    ReadableAfterAppendExactly(file, line);
  }

  lemma RunStep(lines: seq<string>, last: string)
    ensures FileOfRun(lines + [last]) == Some(FileAfter(FileOfRun(lines), last))
  {
    assert (lines + [last])[..|lines|] == lines;
  }

  /** With records of at most 512 bytes, any number of appends reads back as the last 512. */
  lemma {:induction false} SmallRecordsReadBack(lines: seq<string>, last: string)
    requires AreRecords(lines + [last]) && Small(lines + [last])
    ensures RecentRecords(FileOfRun(lines + [last])) == Some(Newest(lines + [last], 512))
    decreases |lines|
  {
    assert (lines + [last])[|lines|] == last;
    assert forall k :: 0 <= k < |lines| ==> lines[k] == (lines + [last])[k];
    var file := FileOfRun(lines);
    var before := Newest(lines, MAXIMUM_RECORDS);
    if lines != [] {
      var init := lines[..|lines| - 1];
      assert lines == init + [lines[|lines| - 1]];
      SmallRecordsReadBack(init, lines[|lines| - 1]);
    }
    RunStep(lines, last);
    SmallAppendReadsBack(file, before, last);
    NewestOfNewest(lines, last, MAXIMUM_RECORDS);
  }

  lemma OneRecordIsKept(line: string)
    requires |line| + 1 <= MAXIMUM_BYTES
    ensures Kept([line]) == [line] && Bytes([line]) == |line| + 1
  {
    assert [line][..0] == [];
    assert FittingCount([line], 0) == 1;
  }

  lemma FirstRecord(line: string)
    requires line != [] && '\n' !in line && |line| + 1 <= MAXIMUM_BYTES
    ensures FileOfRun([line]).Some? && |FileOfRun([line]).value| == |line| + 1
    ensures Records(FileOfRun([line]).value) == [line]
  {
    assert [line][..0] == [] && FileOfRun([]) == None;
    AppendKeepsTheBounds(None, line);
    assert KeptOf(None) + [line] == [line];
  }

  /** Two large observations: each append succeeds, and then nothing can be read. */
  lemma LargeRecordsCannotBeReadBack(line: string)
    requires '\n' !in line && MAXIMUM_BYTES / 2 <= |line| < MAXIMUM_BYTES
    ensures RecentRecords(FileOfRun([line])) == Some([line])
    ensures RecentRecords(FileOfRun([line, line])) == None
  {
    FirstRecord(line);
    OneRecordIsKept(line);
    var file := FileOfRun([line]);
    assert KeptOf(file) == [line];
    assert [line, line][..1] == [line];
    ReadableAfterAppendExactly(file, line);
  }
}
