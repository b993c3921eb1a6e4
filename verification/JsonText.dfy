/** JSON strings and values as `src/ui/dashboard_json_support.hpp` and `dashboard_json_v2.cpp` write them. */
module JsonText {
  import opened Text
  import opened Utf8

  // ----- Writing ------------------------------------------------------------------

  const LOWER_HEX_DIGITS: string := "0123456789abcdef"

  const BACKSPACE: char := 8 as char
  const FORM_FEED: char := 12 as char

  function EscapeChar(c: char): string {
    if c == '"' then "\\\""
    else if c == '\\' then "\\\\"
    else if c == BACKSPACE then "\\b"
    else if c == FORM_FEED then "\\f"
    else if c == '\n' then "\\n"
    else if c == '\r' then "\\r"
    else if c == '\t' then "\\t"
    else if c as int < 0x20 then
      "\\u00" + [LOWER_HEX_DIGITS[c as int / 16], LOWER_HEX_DIGITS[c as int % 16]]
    else [c]
  }

  function Escaped(value: string): string {
    if value == [] then "" else EscapeChar(value[0]) + Escaped(value[1..])
  }

  function Quote(value: string): string {
    "\"" + Escaped(value) + "\""
  }

  method Escape(value: string) returns (output: string)
    ensures output == Escaped(value)
  {
    output := "";
    for index := 0 to |value|
      invariant output + Escaped(value[index..]) == Escaped(value)
    {
      ConcatAssociative(output, EscapeChar(value[index]), Escaped(value[index + 1..]));
      assert value[index..][1..] == value[index + 1..];
      output := output + EscapeChar(value[index]);
    }
  }

  // ----- Reading strings: section 7 of RFC 8259 -------------------------------------

  /** The code unit of the four hexadecimal digits that `s` begins with. */
  function HexUnit(s: string): (r: Option<nat>)
    ensures r.Some? ==> |s| >= 4 && r.value < 0x1_0000
  {
    if |s| >= 4 && HexValue(s[0]) >= 0 && HexValue(s[1]) >= 0 && HexValue(s[2]) >= 0 && HexValue(s[3]) >= 0
    then Some(HexValue(s[0]) * 4096 + HexValue(s[1]) * 256 + HexValue(s[2]) * 16 + HexValue(s[3]))
    else None
  }

  function ShortEscape(c: char): Option<char> {
    if c == '"' || c == '\\' || c == '/' then Some(c)
    else if c == 'b' then Some(BACKSPACE)
    else if c == 'f' then Some(FORM_FEED)
    else if c == 'n' then Some('\n')
    else if c == 'r' then Some('\r')
    else if c == 't' then Some('\t')
    else None
  }

  datatype Read<+T> = Refused | Read(value: T, rest: string)

  /** One character of a string, as the UTF-8 bytes it stands for: unescaped, escaped, or a surrogate pair. */
  function ReadChar(s: string): (r: Read<string>)
    requires s != []
    ensures r.Read? ==> |r.rest| < |s|
  {
    if s[0] == '"' || s[0] as int < 0x20 then Refused
    else if s[0] != '\\' then Read([s[0]], s[1..])
    else if |s| < 2 then Refused
    else if s[1] != 'u' then
      match ShortEscape(s[1])
      case Some(c) => Read([c], s[2..])
      case None => Refused
    else
      match HexUnit(s[2..])
      case None => Refused
      case Some(unit) =>
        if IsScalar(unit) then Read(Utf8Encode(unit), s[6..])
        else if unit >= 0xDC00 || |s| < 12 || s[6] != '\\' || s[7] != 'u' then Refused
        else
          match HexUnit(s[8..])
          case None => Refused
          case Some(low) =>
            if 0xDC00 <= low <= 0xDFFF
            then Read(Utf8Encode(0x1_0000 + (unit - 0xD800) * 0x400 + (low - 0xDC00)), s[12..])
            else Refused
  }

  /** The characters up to the closing quotation mark, which is consumed. */
  function ReadChars(s: string): (r: Read<string>)
    ensures r.Read? ==> |r.rest| < |s|
    decreases |s|
  {
    if s == [] then Refused
    else if s[0] == '"' then Read("", s[1..])
    else
      match ReadChar(s)
      case Refused => Refused
      case Read(c, rest) =>
        match ReadChars(rest)
        case Refused => Refused
        case Read(more, after) => Read(c + more, after)
  }

  function ReadString(s: string): (r: Read<string>)
    ensures r.Read? ==> |r.rest| < |s|
  {
    if s != [] && s[0] == '"' then ReadChars(s[1..]) else Refused
  }

  lemma EscapedCharReadsBack(c: char, rest: string)
    ensures var e := EscapeChar(c);
            e != [] && e[0] != '"' && ReadChar(e + rest) == Read([c], rest)
  {
    var s := EscapeChar(c) + rest;
    if |EscapeChar(c)| == 6 {
      assert s[6..] == rest;
      assert s[2..][0] == '0' && s[2..][1] == '0' && s[2..][2] == LOWER_HEX_DIGITS[c as int / 16]
        && s[2..][3] == LOWER_HEX_DIGITS[c as int % 16];
      assert HexUnit(s[2..]) == Some(c as int);
    }
  }

  lemma {:induction false} EscapedReadsBack(value: string, rest: string)
    ensures ReadChars(Escaped(value) + "\"" + rest) == Read(value, rest)
  {
    var s := Escaped(value) + "\"" + rest;
    if value == [] {
      assert s[1..] == rest;
    } else {
      var more := Escaped(value[1..]) + "\"" + rest;
      assert s == EscapeChar(value[0]) + more;
      EscapedCharReadsBack(value[0], more);
      EscapedReadsBack(value[1..], rest);
      assert value == [value[0]] + value[1..];
    }
  }

  /** Reading a quoted string stops at its last byte and yields it, for every string of bytes. */
  lemma QuotedReadsBack(value: string, rest: string)
    ensures ReadString(Quote(value) + rest) == Read(value, rest)
  {
    var s := Escaped(value) + "\"" + rest;
    EscapedReadsBack(value, rest);
    ConcatAssociative(Escaped(value), "\"", rest);
    ConcatToTheRight("\"", Escaped(value), "\"", rest);
    assert ("\"" + s)[1..] == s;
  }
}
