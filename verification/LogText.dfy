/** The redacting, single-line log format of `src/logging/utils/logging_utils.cpp`. */
module LogText {
  import opened Text

  datatype LogChannel = Operations | Audit | Security | Error

  datatype LogLevel = Info | Warning | Severe

  datatype LogEvent = LogEvent(channel: LogChannel, level: LogLevel, event: string, detail: string)

  function ChannelName(channel: LogChannel): string {
    match channel
    case Operations => "operations"
    case Audit => "audit"
    case Security => "security"
    case Error => "error"
  }

  function LevelName(level: LogLevel): string {
    match level
    case Info => "INFO"
    case Warning => "WARN"
    case Severe => "ERROR"
  }

  const MAXIMUM_EVENT_LENGTH: nat := 96
  const MAXIMUM_DETAIL_LENGTH: nat := 512

  /** What takes the place of an API key. */
  const REDACTION: string := "[REDACTED_IPIFY_KEY]"

  predicate IsAlnum(c: char) {
    'a' <= c <= 'z' || 'A' <= c <= 'Z' || '0' <= c <= '9'
  }

  const LOWER_CASE: string := "abcdefghijklmnopqrstuvwxyz"
  const UPPER_CASE: string := "ABCDEFGHIJKLMNOPQRSTUVWXYZ"
  const DIGITS: string := "0123456789"

  lemma LowerCaseIsListed(c: char)
    ensures c in LOWER_CASE <==> 'a' <= c <= 'z'
  {
    assert forall k :: 0 <= k < |LOWER_CASE| ==> LOWER_CASE[k] as int == 97 + k;
    if 'a' <= c <= 'z' {
      assert LOWER_CASE[c as int - 97] as int == c as int;
    }
  }

  lemma UpperCaseIsListed(c: char)
    ensures c in UPPER_CASE <==> 'A' <= c <= 'Z'
  {
    assert forall k :: 0 <= k < |UPPER_CASE| ==> UPPER_CASE[k] as int == 65 + k;
    if 'A' <= c <= 'Z' {
      assert UPPER_CASE[c as int - 65] as int == c as int;
    }
  }

  lemma DigitsAreListed(c: char)
    ensures c in DIGITS <==> '0' <= c <= '9'
  {
    assert forall k :: 0 <= k < |DIGITS| ==> DIGITS[k] as int == 48 + k;
    if '0' <= c <= '9' {
      assert DIGITS[c as int - 48] as int == c as int;
    }
  }

  /** The letters and digits of ASCII, one by one. */
  lemma AlphanumericsAreListed(c: char)
    ensures IsAlnum(c) <==> c in LOWER_CASE || c in UPPER_CASE || c in DIGITS
  {
    LowerCaseIsListed(c);
    UpperCaseIsListed(c);
    DigitsAreListed(c);
  }

  predicate KeyChar(c: char) {
    IsAlnum(c) || c == '_' || c == '-'
  }

  lemma KeyCharactersAreListed(c: char)
    ensures KeyChar(c) <==> c in LOWER_CASE || c in UPPER_CASE || c in DIGITS || c == '_' || c == '-'
  {
    AlphanumericsAreListed(c);
  }

  /** `s` begins with `at_` and at least one key character. */
  predicate StartsKey(s: string) {
    |s| >= 4 && s[0] == 'a' && s[1] == 't' && s[2] == '_' && KeyChar(s[3])
  }

  function KeyEnd(s: string, end: nat): (r: nat)
    requires end <= |s|
    ensures end <= r <= |s| && (forall k :: end <= k < r ==> KeyChar(s[k])) && (r < |s| ==> !KeyChar(s[r]))
    decreases |s| - end
  {
    if end < |s| && KeyChar(s[end]) then KeyEnd(s, end + 1) else end
  }

  function Plain(c: char): char {
    if Control(c) then ' ' else c
  }

  /** What is still written for `value` once `used` characters have been. */
  function RedactedFrom(value: string, used: nat, maximum: nat): string
    decreases |value|
  {
    if value == [] || used >= maximum then ""
    else if StartsKey(value) then
      var shown := REDACTION[..Min(|REDACTION|, maximum - used)];
      shown + RedactedFrom(value[KeyEnd(value, 3)..], used + |shown|, maximum)
    else [Plain(value[0])] + RedactedFrom(value[1..], used + 1, maximum)
  }

  function Redacted(value: string, maximum: nat): string {
    RedactedFrom(value, 0, maximum)
  }

  /** The final value, once `sanitized` is what was written for the input before `index`. */
  function Completed(value: string, maximum: nat, index: nat, sanitized: string): string
    requires index <= |value|
  {
    sanitized + RedactedFrom(value[index..], |sanitized|, maximum)
  }

  lemma CompletedBehindAKey(value: string, maximum: nat, index: nat, sanitized: string)
    requires index < |value| && |sanitized| < maximum && StartsKey(value[index..])
    ensures Completed(value, maximum, index, sanitized) ==
            Completed(value, maximum, index + KeyEnd(value[index..], 3),
                      sanitized + REDACTION[..Min(|REDACTION|, maximum - |sanitized|)])
  {
    var n := KeyEnd(value[index..], 3);
    var shown := REDACTION[..Min(|REDACTION|, maximum - |sanitized|)];
    assert value[index..][n..] == value[index + n..];
    ConcatAssociative(sanitized, shown, RedactedFrom(value[index + n..], |sanitized| + |shown|, maximum));
  }

  lemma CompletedBehindOne(value: string, maximum: nat, index: nat, sanitized: string)
    requires index < |value| && |sanitized| < maximum && !StartsKey(value[index..])
    ensures Completed(value, maximum, index, sanitized) ==
            Completed(value, maximum, index + 1, sanitized + [Plain(value[index])])
  {
    assert value[index..][1..] == value[index + 1..];
    ConcatAssociative(sanitized, [Plain(value[index])], RedactedFrom(value[index + 1..], |sanitized| + 1, maximum));
  }

  lemma CompletedStep(value: string, maximum: nat, index: nat, sanitized: string)
    requires index < |value| && |sanitized| < maximum
    ensures var rest := value[index..];
            Completed(value, maximum, index, sanitized) ==
            if StartsKey(rest) then
              Completed(value, maximum, index + KeyEnd(rest, 3),
                        sanitized + REDACTION[..Min(|REDACTION|, maximum - |sanitized|)])
            else Completed(value, maximum, index + 1, sanitized + [Plain(value[index])])
  {
    if StartsKey(value[index..]) {
      CompletedBehindAKey(value, maximum, index, sanitized);
    } else {
      CompletedBehindOne(value, maximum, index, sanitized);
    }
  }

  method SanitizeLogValue(value: string, maximum: nat) returns (sanitized: string)
    ensures sanitized == Redacted(value, maximum)
  {
    sanitized := "";
    var index := 0;
    assert value[0..] == value;
    while index < |value| && |sanitized| < maximum
      invariant index <= |value|
      invariant Completed(value, maximum, index, sanitized) == Redacted(value, maximum)
    {
      CompletedStep(value, maximum, index, sanitized);
      if index + 3 <= |value| && value[index] == 'a' && value[index + 1] == 't' && value[index + 2] == '_' {
        var end := ScanKey(value, index);
        if end > index + 3 {
          sanitized := sanitized + REDACTION[..Min(|REDACTION|, maximum - |sanitized|)];
          index := end;
          continue;
        }
      }
      var character := value[index];
      index := index + 1;
      sanitized := sanitized + [if Control(character) then ' ' else character];
    }
  }

  method ScanKey(value: string, index: nat) returns (end: nat)
    requires index + 3 <= |value|
    ensures end == index + KeyEnd(value[index..], 3)
    ensures end > index + 3 <==> index + 3 < |value| && KeyChar(value[index + 3])
  {
    ghost var rest := value[index..];
    end := index + 3;
    while end < |value| && KeyChar(value[end])
      invariant index + 3 <= end <= |value|
      invariant KeyEnd(rest, 3) == KeyEnd(rest, end - index)
    {
      assert rest[end - index] == value[end];
      end := end + 1;
    }
  }

  // ----- Redaction is sound, complete and idempotent ------------------------------

  /** No control character, and no key anywhere. */
  predicate Clean(s: string) {
    && (forall i :: 0 <= i < |s| ==> !Control(s[i]))
    && (forall i :: 0 <= i < |s| ==> !StartsKey(s[i..]))
  }

  lemma {:induction false} RedactedIsBounded(value: string, used: nat, maximum: nat)
    requires used <= maximum
    ensures used + |RedactedFrom(value, used, maximum)| <= maximum
    decreases |value|
  {
    if value != [] && used < maximum {
      if StartsKey(value) {
        RedactedIsBounded(value[KeyEnd(value, 3)..], used + Min(|REDACTION|, maximum - used), maximum);
      } else {
        RedactedIsBounded(value[1..], used + 1, maximum);
      }
    }
  }

  /** A key character at the front of the output is the first character of the input. */
  lemma OutputStartsLikeTheInput(value: string, used: nat, maximum: nat)
    requires RedactedFrom(value, used, maximum) != [] && KeyChar(RedactedFrom(value, used, maximum)[0])
    ensures value != [] && value[0] == RedactedFrom(value, used, maximum)[0]
    ensures RedactedFrom(value, used, maximum)[1..] == RedactedFrom(value[1..], used + 1, maximum)
  {
  }

  lemma CleanAppend(left: string, right: string)
    requires Clean(right) && 'a' !in left && forall i :: 0 <= i < |left| ==> !Control(left[i])
    ensures Clean(left + right)
  {
    var s := left + right;
    forall i | 0 <= i < |s| ensures !StartsKey(s[i..]) {
      if i >= |left| {
        assert s[i..] == right[i - |left|..];
      } else {
        assert s[i] == left[i] && left[i] in left;
      }
    }
  }

  lemma RedactionIsClean(n: nat)
    requires n <= |REDACTION|
    ensures 'a' !in REDACTION[..n] && forall i :: 0 <= i < n ==> !Control(REDACTION[i])
  {
    assert 'a' !in REDACTION;
    assert forall c :: c in REDACTION ==> !Control(c);
    forall c | c in REDACTION[..n] ensures c in REDACTION {}
  }

  lemma CleanCons(c: char, rest: string)
    requires Clean(rest) && !Control(c) && !StartsKey([c] + rest)
    ensures Clean([c] + rest)
  {
    var s := [c] + rest;
    forall i | 0 <= i < |s| ensures !StartsKey(s[i..]) {
      if i == 0 {
        assert s[0..] == s;
      } else {
        assert s[i..] == rest[i - 1..];
      }
    }
  }

  lemma RedactedKeyIsClean(value: string, used: nat, maximum: nat)
    requires StartsKey(value) && used < maximum
    requires Clean(RedactedFrom(value[KeyEnd(value, 3)..], used + Min(|REDACTION|, maximum - used), maximum))
    ensures Clean(RedactedFrom(value, used, maximum))
  {
    var n := Min(|REDACTION|, maximum - used);
    RedactionIsClean(n);
    CleanAppend(REDACTION[..n], RedactedFrom(value[KeyEnd(value, 3)..], used + n, maximum));
  }

  lemma PlainCharacterStaysClean(value: string, used: nat, maximum: nat)
    requires value != [] && !StartsKey(value) && used < maximum
    requires Clean(RedactedFrom(value[1..], used + 1, maximum))
    ensures Clean(RedactedFrom(value, used, maximum))
  {
    NoKeyAtTheFront(value, used, maximum);
    CleanCons(Plain(value[0]), RedactedFrom(value[1..], used + 1, maximum));
  }

  /** No key survives, not even one put together from neighbouring pieces. */
  lemma {:induction false} RedactedIsClean(value: string, used: nat, maximum: nat)
    ensures Clean(RedactedFrom(value, used, maximum))
    decreases |value|
  {
    if value == [] || used >= maximum {
      assert RedactedFrom(value, used, maximum) == "";
    } else if StartsKey(value) {
      RedactedIsClean(value[KeyEnd(value, 3)..], used + Min(|REDACTION|, maximum - used), maximum);
      RedactedKeyIsClean(value, used, maximum);
    } else {
      RedactedIsClean(value[1..], used + 1, maximum);
      PlainCharacterStaysClean(value, used, maximum);
    }
  }

  lemma NoKeyAtTheFront(value: string, used: nat, maximum: nat)
    requires !StartsKey(value)
    ensures !StartsKey(RedactedFrom(value, used, maximum))
  {
    var output := RedactedFrom(value, used, maximum);
    if StartsKey(output) {
      OutputStartsLikeTheInput(value, used, maximum);
      OutputStartsLikeTheInput(value[1..], used + 1, maximum);
      OutputStartsLikeTheInput(value[2..], used + 2, maximum);
      OutputStartsLikeTheInput(value[3..], used + 3, maximum);
      assert false;
    }
  }

  lemma {:induction false} CleanIsKept(value: string, used: nat, maximum: nat)
    requires Clean(value) && used + |value| <= maximum
    ensures RedactedFrom(value, used, maximum) == value
  {
    if value != [] {
      assert value[0..] == value;
      assert forall i :: 0 <= i < |value[1..]| ==> value[1..][i..] == value[i + 1..];
      CleanIsKept(value[1..], used + 1, maximum);
    }
  }

  /** Exactly the clean values that fit are written as they are. */
  lemma KeptExactlyWhenClean(value: string, maximum: nat)
    ensures Redacted(value, maximum) == value <==> Clean(value) && |value| <= maximum
  {
    RedactedIsBounded(value, 0, maximum);
    RedactedIsClean(value, 0, maximum);
    if Clean(value) && |value| <= maximum {
      CleanIsKept(value, 0, maximum);
    }
  }

  lemma RedactingTwice(value: string, maximum: nat)
    ensures Redacted(Redacted(value, maximum), maximum) == Redacted(value, maximum)
  {
    RedactedIsBounded(value, 0, maximum);
    RedactedIsClean(value, 0, maximum);
    KeptExactlyWhenClean(Redacted(value, maximum), maximum);
  }

  // ----- What redaction writes, part by part ----------------------------------------

  /** The value with spaces for its control characters. */
  function Blanked(value: string): (r: string)
    ensures |r| == |value|
    ensures forall k :: 0 <= k < |value| ==>
              r[k] == if value[k] as int < 32 || value[k] as int == 127 then ' ' else value[k]
  {
    seq(|value|, k requires 0 <= k < |value| => Plain(value[k]))
  }

  /** Only the room that is left matters. */
  lemma {:induction false} SameRoom(value: string, used: nat, maximum: nat, used': nat, maximum': nat)
    requires used <= maximum && used' <= maximum' && maximum - used == maximum' - used'
    ensures RedactedFrom(value, used, maximum) == RedactedFrom(value, used', maximum')
    decreases |value|
  {
    if value != [] && used < maximum {
      if StartsKey(value) {
        var n := Min(|REDACTION|, maximum - used);
        SameRoom(value[KeyEnd(value, 3)..], used + n, maximum, used' + n, maximum');
      } else {
        SameRoom(value[1..], used + 1, maximum, used' + 1, maximum');
      }
    }
  }

  /** What is written from `used` on when `blanked` comes first and `rest` is still to be redacted. */
  function WrittenFirst(blanked: string, rest: string, used: nat, maximum: nat): string
    requires used <= maximum
  {
    if |blanked| < maximum - used then blanked + RedactedFrom(rest, used + |blanked|, maximum)
    else blanked[..maximum - used]
  }

  lemma WrittenFirstStep(first: string, blanked: string, rest: string, used: nat, maximum: nat)
    requires |first| == 1 && used < maximum
    ensures WrittenFirst(first + blanked, rest, used, maximum) == first + WrittenFirst(blanked, rest, used + 1, maximum)
  {
    if |blanked| + 1 < maximum - used {
      ConcatAssociative(first, blanked, RedactedFrom(rest, used + 1 + |blanked|, maximum));
    } else {
      assert (first + blanked)[..maximum - used] == first + blanked[..maximum - used - 1];
    }
  }

  lemma KeysInTheRest(value: string, n: nat)
    requires 1 <= n <= |value| && forall i :: 0 <= i < n ==> !StartsKey(value[i..])
    ensures !StartsKey(value) && forall i :: 0 <= i < n - 1 ==> !StartsKey(value[1..][i..])
    ensures Blanked(value[..n]) == [Plain(value[0])] + Blanked(value[1..][..n - 1])
    ensures value[1..][n - 1..] == value[n..]
  {
    assert value[0..] == value;
    assert forall i :: 0 <= i < n - 1 ==> value[1..][i..] == value[i + 1..];
  }

  /** Up to where a key starts, or to the end, everything is written, with spaces for control characters. */
  lemma {:induction false} WrittenBeforeAKey(value: string, n: nat, used: nat, maximum: nat)
    requires n <= |value| && used <= maximum
    requires forall i :: 0 <= i < n ==> !StartsKey(value[i..])
    ensures RedactedFrom(value, used, maximum) == WrittenFirst(Blanked(value[..n]), value[n..], used, maximum)
  {
    if n == 0 {
      assert value[0..] == value && Blanked(value[..0]) == "";
    } else if used < maximum {
      KeysInTheRest(value, n);
      WrittenBeforeAKey(value[1..], n - 1, used + 1, maximum);
      WrittenFirstStep([Plain(value[0])], Blanked(value[1..][..n - 1]), value[n..], used, maximum);
    }
  }

  /** A value without a key is written as it is, with spaces for control characters, up to the limit. */
  lemma NoKeyIsWritten(value: string, maximum: nat)
    requires forall i :: 0 <= i < |value| ==> !StartsKey(value[i..])
    ensures Redacted(value, maximum) == Blanked(value)[..Min(|value|, maximum)]
  {
    WrittenBeforeAKey(value, |value|, 0, maximum);
    assert value[..|value|] == value && value[|value|..] == [];
    assert Blanked(value)[..|value|] == Blanked(value);
  }

  lemma KeyEndsThere(key: string, after: string)
    requires key != "" && forall k :: 0 <= k < |key| ==> KeyChar(key[k])
    requires after == "" || !KeyChar(after[0])
    ensures var s := "at_" + key + after;
            StartsKey(s) && KeyEnd(s, 3) == 3 + |key| && s[3 + |key|..] == after
  {
    var s := "at_" + key + after;
    assert forall k :: 3 <= k < 3 + |key| ==> s[k] == key[k - 3];
    assert after != "" ==> s[3 + |key|] == after[0];
  }

  /** As much of the mark as there is room for. */
  function MarkFor(room: nat): string {
    "[REDACTED_IPIFY_KEY]"[..Min(20, room)]
  }

  lemma KeyIsReplaced(key: string, after: string, used: nat, maximum: nat)
    requires key != "" && forall k :: 0 <= k < |key| ==> KeyChar(key[k])
    requires after == "" || !KeyChar(after[0])
    requires used < maximum
    ensures var mark := MarkFor(maximum - used);
            RedactedFrom("at_" + key + after, used, maximum) == mark + Redacted(after, maximum - used - |mark|)
  {
    var mark := MarkFor(maximum - used);
    KeyEndsThere(key, after);
    assert mark == REDACTION[..Min(|REDACTION|, maximum - used)];
    SameRoom(after, used + |mark|, maximum, 0, maximum - used - |mark|);
  }

  /**
   The first key of a value: what stands before it is written, then the mark in place of the key, then the redaction of
   what follows, all up to the limit. Together with `NoKeyIsWritten` this says what is written for every value.
   */
  lemma FirstKeyIsReplaced(before: string, key: string, after: string, maximum: nat)
    requires key != "" && forall k :: 0 <= k < |key| ==> KeyChar(key[k])
    requires after == "" || !KeyChar(after[0])
    requires forall i :: 0 <= i < |before| ==> !StartsKey((before + ("at_" + key + after))[i..])
    ensures Redacted(before + ("at_" + key + after), maximum) ==
            if |before| >= maximum then Blanked(before)[..maximum]
            else
              var mark := MarkFor(maximum - |before|);
              Blanked(before) + (mark + Redacted(after, maximum - |before| - |mark|))
  {
    var rest := "at_" + key + after;
    var value := before + rest;
    assert value[..|before|] == before && value[|before|..] == rest;
    WrittenBeforeAKey(value, |before|, 0, maximum);
    if |before| < maximum {
      KeyIsReplaced(key, after, |before|, maximum);
    }
  }

  lemma {:induction false} FirstKey(value: string, i: nat) returns (first: nat)
    requires i < |value| && StartsKey(value[i..])
    ensures first <= i && StartsKey(value[first..]) && forall j :: 0 <= j < first ==> !StartsKey(value[j..])
  {
    first := 0;
    while !StartsKey(value[first..])
      invariant first <= i && forall j :: 0 <= j < first ==> !StartsKey(value[j..])
      decreases i - first
    {
      first := first + 1;
    }
  }

  lemma KeyAtTheFront(s: string) returns (key: string, after: string)
    requires StartsKey(s)
    ensures s == "at_" + key + after && key != "" && forall k :: 0 <= k < |key| ==> KeyChar(key[k])
    ensures after == "" || !KeyChar(after[0])
  {
    var end := KeyEnd(s, 3);
    key, after := s[3..end], s[end..];
    assert s[..3] == "at_";
    assert s == s[..3] + key + after;
    forall k | 0 <= k < |key| ensures KeyChar(key[k]) {
      assert key[k] == s[k + 3];
    }
  }

  /** Every value either has no key, or splits at its first one. */
  lemma EveryValueSplits(value: string) returns (before: string, key: string, after: string)
    ensures || (forall i :: 0 <= i < |value| ==> !StartsKey(value[i..]))
            || (&& value == before + "at_" + key + after
                && key != "" && (forall k :: 0 <= k < |key| ==> KeyChar(key[k])) && (after == "" || !KeyChar(after[0]))
                && (forall i :: 0 <= i < |before| ==> !StartsKey(value[i..])))
  {
    before, key, after := "", "", "";
    if i :| 0 <= i < |value| && StartsKey(value[i..]) {
      var first := FirstKey(value, i);
      before := value[..first];
      key, after := KeyAtTheFront(value[first..]);
      assert value == before + value[first..];
      ConcatToTheRight(before, "at_", key, after);
      ConcatAssociative("at_", key, after);
    }
  }

  // ----- The log line ---------------------------------------------------------------

  /** One log entry, its newline included; the clock supplies the timestamp. */
  function FormatLogEvent(timestamp: string, event: LogEvent): string {
    timestamp + "\t" + LevelName(event.level) + "\t" + ChannelName(event.channel) + "\t" +
    Redacted(event.event, MAXIMUM_EVENT_LENGTH) + "\t" + Redacted(event.detail, MAXIMUM_DETAIL_LENGTH) + "\n"
  }
}
