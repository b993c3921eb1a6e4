/**
 A `std::string` is a `string` whose chars are its bytes: char code n stands for byte n, and nothing
 below assumes that codes stay under 256. This module holds `Option` and the few sequence facts the others share.
 */
module Text {

  datatype Option<+T> = None | Some(value: T)

  /** The concatenation of `parts`, in order. */
  function Flatten<T>(parts: seq<seq<T>>): seq<T> {
    if parts == [] then [] else parts[0] + Flatten(parts[1..])
  }

  lemma ConcatAssociative<T>(a: seq<T>, b: seq<T>, c: seq<T>)
    ensures (a + b) + c == a + (b + c)
  {
  }

  lemma ConcatToTheRight<T>(a: seq<T>, b: seq<T>, c: seq<T>, d: seq<T>)
    ensures ((a + b) + c) + d == a + (b + (c + d))
  {
  }

  lemma ConcatInTheMiddle<T>(a: seq<T>, b: seq<T>, c: seq<T>, d: seq<T>)
    ensures (a + (b + c)) + d == (a + b) + (c + d)
  {
  }

  lemma {:induction false} FlattenAppend<T>(left: seq<seq<T>>, right: seq<seq<T>>)
    ensures Flatten(left + right) == Flatten(left) + Flatten(right)
  {
    if left == [] {
      assert left + right == right;
    } else {
      FlattenAppend(left[1..], right);
      calc {
        Flatten(left + right);
        { assert (left + right)[0] == left[0] && (left + right)[1..] == left[1..] + right; }
        left[0] + Flatten(left[1..] + right);
        left[0] + (Flatten(left[1..]) + Flatten(right));
        { ConcatAssociative(left[0], Flatten(left[1..]), Flatten(right)); }
        (left[0] + Flatten(left[1..])) + Flatten(right);
      }
    }
  }

  lemma FlattenSnoc<T>(parts: seq<seq<T>>, last: seq<T>)
    ensures Flatten(parts + [last]) == Flatten(parts) + last
  {
    FlattenAppend(parts, [last]);
    assert Flatten([last]) == last + Flatten<T>([]);
  }

  /** `s` cut into one-element sequences. */
  function Singletons<T>(s: seq<T>): seq<seq<T>> {
    seq(|s|, i requires 0 <= i < |s| => [s[i]])
  }

  lemma {:induction false} FlattenSingletons<T>(s: seq<T>)
    ensures Flatten(Singletons(s)) == s
  {
    if s != [] {
      FlattenSingletons(s[1..]);
      assert Singletons(s)[1..] == Singletons(s[1..]);
    }
  }

  /** The position of the first `c` in `s`, or `|s|`. */
  function IndexOf(s: string, c: char): (n: nat)
    ensures n <= |s| && c !in s[..n]
    ensures n < |s| ==> s[n] == c
  {
    if s == [] || s[0] == c then 0 else 1 + IndexOf(s[1..], c)
  }

  lemma {:induction false} IndexOfFirst(before: string, c: char, after: string)
    requires c !in before
    ensures IndexOf(before + [c] + after, c) == |before|
  {
    if before != [] {
      assert before[0] in before && forall x :: x in before[1..] ==> x in before;
      IndexOfFirst(before[1..], c, after);
      assert (before + [c] + after)[1..] == before[1..] + [c] + after;
    }
  }

  /** What repeated `std::getline` calls return: a last line without a newline counts, an empty one does not. */
  function Lines(content: string): (lines: seq<string>)
    ensures forall k :: 0 <= k < |lines| ==> '\n' !in lines[k]
    decreases |content|
  {
    if content == [] then []
    else
      var n := IndexOf(content, '\n');
      [content[..n]] + if n < |content| then Lines(content[n + 1..]) else []
  }

  lemma LinesOfLine(line: string, rest: string)
    requires '\n' !in line
    ensures Lines(line + "\n" + rest) == [line] + Lines(rest)
  {
    IndexOfFirst(line, '\n', rest);
    assert (line + "\n" + rest)[..|line|] == line;
    assert (line + "\n" + rest)[|line| + 1..] == rest;
  }

  /** Each line followed by its newline. */
  function JoinLines(lines: seq<string>): string {
    if lines == [] then "" else lines[0] + "\n" + JoinLines(lines[1..])
  }

  lemma {:induction false} JoinLinesAppend(left: seq<string>, right: seq<string>)
    ensures JoinLines(left + right) == JoinLines(left) + JoinLines(right)
  {
    if left == [] {
      assert left + right == right;
    } else {
      JoinLinesAppend(left[1..], right);
      assert (left + right)[1..] == left[1..] + right;
      ConcatAssociative(left[0] + "\n", JoinLines(left[1..]), JoinLines(right));
    }
  }

  lemma JoinLinesSnoc(lines: seq<string>, last: string)
    ensures JoinLines(lines + [last]) == JoinLines(lines) + last + "\n"
  {
    JoinLinesAppend(lines, [last]);
    assert JoinLines([last]) == last + "\n" + JoinLines([]);
  }

  lemma {:induction false} LinesOfJoined(lines: seq<string>)
    requires forall k :: 0 <= k < |lines| ==> '\n' !in lines[k]
    ensures Lines(JoinLines(lines)) == lines
  {
    if lines != [] {
      LinesOfLine(lines[0], JoinLines(lines[1..]));
      LinesOfJoined(lines[1..]);
    }
  }

  lemma UnfinishedBehindALine(line: string, later: string, unfinished: string)
    requires '\n' !in line
    ensures Lines(line + "\n" + later + unfinished) == [line] + Lines(later + unfinished)
  {
    ConcatAssociative(line + "\n", later, unfinished);
    LinesOfLine(line, later + unfinished);
  }

  /** A last line that was not finished is read as a line of its own. */
  lemma {:induction false} LinesOfUnfinished(lines: seq<string>, unfinished: string)
    requires forall k :: 0 <= k < |lines| ==> '\n' !in lines[k]
    requires '\n' !in unfinished
    ensures Lines(JoinLines(lines) + unfinished) == lines + if unfinished == "" then [] else [unfinished]
  {
    if lines == [] {
      assert JoinLines(lines) + unfinished == unfinished;
      assert unfinished[..|unfinished|] == unfinished;
    } else {
      var first, later := lines[0], lines[1..];
      var tail: seq<string> := if unfinished == "" then [] else [unfinished];
      LinesOfUnfinished(later, unfinished);
      UnfinishedBehindALine(first, JoinLines(later), unfinished);
      ConcatAssociative([first], later, tail);
      assert [first] + later == lines;
    }
  }

  /** The tab-separated fields of a line; there is always at least one. */
  function Fields(line: string): (fields: seq<string>)
    ensures fields != []
  {
    if line == [] then [""]
    else
      var fields, c := Fields(line[..|line| - 1]), line[|line| - 1];
      if c == '\t' then fields + [""]
      else fields[|fields| - 1 := fields[|fields| - 1] + [c]]
  }

  lemma {:induction false} FieldsGrow(line: string, n: nat)
    requires n <= |line|
    ensures |Fields(line[..n])| <= |Fields(line)|
    decreases |line| - n
  {
    if n < |line| {
      assert line[..n + 1][..n] == line[..n];
      FieldsGrow(line, n + 1);
    } else {
      assert line[..n] == line;
    }
  }

  lemma {:induction false} FieldsWithoutTabs(s: string)
    requires '\t' !in s
    ensures Fields(s) == [s]
  {
    if s != [] {
      var init, c := s[..|s| - 1], s[|s| - 1];
      assert c in s && s == init + [c];
      FieldsWithoutTabs(init);
    }
  }

  lemma {:induction false} FieldsAfterTab(before: string, last: string)
    requires '\t' !in last
    ensures Fields(before + "\t" + last) == Fields(before) + [last]
  {
    var s := before + "\t" + last;
    if last == [] {
      assert s[..|s| - 1] == before;
    } else {
      var init, c := last[..|last| - 1], last[|last| - 1];
      assert c in last && last == init + [c];
      FieldsAfterTab(before, init);
      assert s[..|s| - 1] == before + "\t" + init;
    }
  }

  lemma {:induction false} FieldsOfConcat(before: string, after: string)
    ensures |Fields(before + after)| == |Fields(before)| + |Fields(after)| - 1
  {
    if after == [] {
      assert before + after == before;
    } else {
      var init := after[..|after| - 1];
      FieldsOfConcat(before, init);
      assert (before + after)[..|before + after| - 1] == before + init;
    }
  }

  lemma {:induction false} FieldsOfTabbed(s: string)
    requires '\t' in s
    ensures |Fields(s)| >= 2
  {
    var init, c := s[..|s| - 1], s[|s| - 1];
    assert s == init + [c];
    if c != '\t' {
      FieldsOfTabbed(init);
    }
  }

  /** The fields with a tab between each two. */
  function JoinFields(fields: seq<string>): (line: string)
    requires fields != []
    ensures (forall k :: 0 <= k < |fields| ==> '\n' !in fields[k]) ==> '\n' !in line
    ensures |fields| > 1 ==> line != []
  {
    if |fields| == 1 then fields[0]
    else JoinFields(fields[..|fields| - 1]) + "\t" + fields[|fields| - 1]
  }

  lemma {:induction false} FieldsOfJoined(fields: seq<string>)
    requires fields != [] && forall k :: 0 <= k < |fields| ==> '\t' !in fields[k]
    ensures Fields(JoinFields(fields)) == fields
  {
    if |fields| == 1 {
      FieldsWithoutTabs(fields[0]);
    } else {
      var init, last := fields[..|fields| - 1], fields[|fields| - 1];
      FieldsOfJoined(init);
      FieldsAfterTab(JoinFields(init), last);
      assert fields == init + [last];
    }
  }

  lemma JoinFieldsSnoc(fields: seq<string>, last: string)
    requires fields != []
    ensures JoinFields(fields + [last]) == JoinFields(fields) + "\t" + last
  {
    assert (fields + [last])[..|fields|] == fields;
  }

  lemma JoinFieldsExtended(fields: seq<string>, c: char)
    requires fields != []
    ensures JoinFields(fields[|fields| - 1 := fields[|fields| - 1] + [c]]) == JoinFields(fields) + [c]
  {
    var n := |fields| - 1;
    var extended := fields[n := fields[n] + [c]];
    if n > 0 {
      assert extended[..n] == fields[..n];
      ConcatAssociative(JoinFields(fields[..n]) + "\t", fields[n], [c]);
    }
  }

  lemma {:induction false} JoinOfFields(line: string)
    ensures JoinFields(Fields(line)) == line
    ensures forall k :: 0 <= k < |Fields(line)| ==> '\t' !in Fields(line)[k]
  {
    if line != [] {
      var init, c := line[..|line| - 1], line[|line| - 1];
      JoinOfFields(init);
      if c == '\t' {
        JoinFieldsSnoc(Fields(init), "");
      } else {
        JoinFieldsExtended(Fields(init), c);
      }
      assert line == init + [c];
    }
  }

  /** The value of a hexadecimal digit, or -1. */
  function HexValue(c: char): (v: int)
    ensures -1 <= v < 16
  {
    if '0' <= c <= '9' then c as int - '0' as int
    else if 'a' <= c <= 'f' then c as int - 'a' as int + 10
    else if 'A' <= c <= 'F' then c as int - 'A' as int + 10
    else -1
  }

  predicate Control(c: char) {
    c as int < 32 || c as int == 127
  }

  function Min(a: nat, b: nat): nat {
    if a <= b then a else b
  }
}
