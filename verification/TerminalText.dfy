/** The terminal text sanitizer of `src/ui/terminal_ui.cpp`. */
module TerminalText {
  import opened Text

  const ESC: char := '\U{1B}'

  const TRUNCATION_MARK: string := "...[truncated]"

  const DEFAULT_MAXIMUM_BYTES: nat := 4096

  // ----- Escapes -------------------------------------------------------------

  const HEX_DIGITS: string := "0123456789ABCDEF"

  function HexEscape(byte: char): string {
    "\\x" + [HEX_DIGITS[byte as int / 16 % 16], HEX_DIGITS[byte as int % 16]]
  }

  /** Only the low sixteen bits are shown, four at a time from the top. */
  function UnicodeEscape(codepoint: nat): string {
    "\\u" + [HEX_DIGITS[codepoint / 4096 % 16], HEX_DIGITS[codepoint / 256 % 16],
             HEX_DIGITS[codepoint / 16 % 16], HEX_DIGITS[codepoint % 16]]
  }

  /** C1 controls, zero-width and bidirectional format characters, and the byte-order mark. */
  predicate FormatCodepoint(codepoint: nat) {
    || 0x80 <= codepoint <= 0x9F
    || 0x200B <= codepoint <= 0x200F
    || 0x202A <= codepoint <= 0x202E
    || codepoint == 0x2060
    || 0x2066 <= codepoint <= 0x2069
    || codepoint == 0xFEFF
  }

  // ----- The decoder, on the text that is still to be read --------------------

  predicate SgrParameter(c: char) {
    '0' <= c <= '9' || c == ';'
  }

  function SgrEnd(s: string, end: nat): (r: nat)
    requires end <= |s|
    ensures end <= r <= |s|
    decreases |s| - end
  {
    if end < |s| && SgrParameter(s[end]) then SgrEnd(s, end + 1) else end
  }

  /** The length of the complete SGR sequence that `s` begins with, or 0. */
  function SgrLength(s: string): (r: nat)
    ensures r <= |s| && (r == 0 || r >= 3)
  {
    if |s| > 2 && s[0] == ESC && s[1] == '[' then
      var end := SgrEnd(s, 2);
      if end < |s| && s[end] == 'm' then end + 1 else 0
    else 0
  }

  /** How many bytes a lead byte announces, from its top bits; 0 for a byte that leads nothing. */
  function LeadWidth(byte: int): (w: nat)
    ensures w == 0 || 2 <= w <= 4
  {
    if byte / 32 == 6 then 2
    else if byte / 16 == 14 then 3
    else if byte / 8 == 30 then 4
    else 0
  }

  function LeadBits(byte: nat, width: nat): nat {
    if width == 2 then byte % 32 else if width == 3 then byte % 16 else byte % 8
  }

  /** Shifts in the payload of the continuation bytes `s[k..width]`; `None` at the first other byte. */
  function TailBits(s: string, k: nat, width: nat, codepoint: nat): Option<nat>
    requires k <= width <= |s|
    decreases width - k
  {
    if k == width then Some(codepoint)
    else if s[k] as int / 64 != 2 then None
    else TailBits(s, k + 1, width, codepoint * 64 + s[k] as int % 64)
  }

  function MinimumCodepoint(width: nat): nat {
    if width == 2 then 0x80 else if width == 3 then 0x800 else 0x1_0000
  }

  datatype Decoded = Malformed | Scalar(codepoint: nat, width: nat)

  /** Decodes the sequence of two or more bytes that `s` begins with. */
  function DecodeMultibyte(s: string): (d: Decoded)
    requires s != []
    ensures d.Scalar? ==> 2 <= d.width <= |s|
  {
    var width := LeadWidth(s[0] as int);
    if width == 0 || width > |s| then Malformed
    else
      match TailBits(s, 1, width, LeadBits(s[0] as int, width))
      case None => Malformed
      case Some(codepoint) =>
        if codepoint < MinimumCodepoint(width) || codepoint > 0x10_FFFF || 0xD800 <= codepoint <= 0xDFFF
        then Malformed
        else Scalar(codepoint, width)
  }

  /** `width` bytes of input, and what is shown for them. */
  datatype Piece = Piece(width: nat, shown: string)

  function NextPiece(s: string): (p: Piece)
    requires s != []
    ensures 1 <= p.width <= |s| && p.shown != []
  {
    var sgr := SgrLength(s);
    var byte := s[0] as int;
    if sgr > 0 then Piece(sgr, s[..sgr])
    else if byte < 0x20 || byte == 0x7F then Piece(1, HexEscape(s[0]))
    else if byte < 0x80 then Piece(1, s[..1])
    else
      match DecodeMultibyte(s)
      case Malformed => Piece(1, HexEscape(s[0]))
      case Scalar(codepoint, width) =>
        Piece(width, if FormatCodepoint(codepoint) then UnicodeEscape(codepoint) else s[..width])
  }

  // ----- What the sanitizer computes ------------------------------------------

  function Pieces(s: string): seq<Piece>
    decreases |s|
  {
    if s == [] then [] else [NextPiece(s)] + Pieces(s[NextPiece(s).width..])
  }

  /** What is still shown of `pieces` after `used` bytes: a piece is shown when fewer than `maximum` precede it. */
  function ShownUpTo(pieces: seq<Piece>, used: nat, maximum: nat): string {
    if pieces == [] then []
    else if used >= maximum then TRUNCATION_MARK
    else pieces[0].shown + ShownUpTo(pieces[1..], used + |pieces[0].shown|, maximum)
  }

  function Sanitized(text: string, maximum: nat): string {
    ShownUpTo(Pieces(text), 0, maximum)
  }

  method ScanSgr(text: string, index: nat) returns (length: nat)
    requires index < |text|
    ensures length == SgrLength(text[index..])
  {
    ghost var s := text[index..];
    if text[index] == ESC && index + 2 < |text| && text[index + 1] == '[' {
      var end := index + 2;
      while end < |text| && SgrParameter(text[end])
        invariant index + 2 <= end <= |text|
        invariant SgrEnd(s, 2) == SgrEnd(s, end - index)
      {
        assert s[end - index] == text[end];
        end := end + 1;
      }
      if end < |text| && text[end] == 'm' {
        return end - index + 1;
      }
    }
    return 0;
  }

  method Decode(text: string, index: nat) returns (decoded: Decoded)
    requires index < |text|
    ensures decoded == DecodeMultibyte(text[index..])
  {
    ghost var s := text[index..];
    var width := LeadWidth(text[index] as int);
    if width == 0 || index + width > |text| {
      return Malformed;
    }
    var codepoint: nat := LeadBits(text[index] as int, width);
    for tail := 1 to width
      invariant TailBits(s, 1, width, LeadBits(s[0] as int, width)) == TailBits(s, tail, width, codepoint)
    {
      var continuation := text[index + tail] as int;
      assert s[tail] as int == continuation;
      if continuation / 64 != 2 {
        return Malformed;
      }
      codepoint := codepoint * 64 + continuation % 64;
    }
    if codepoint < MinimumCodepoint(width) || codepoint > 0x10_FFFF || 0xD800 <= codepoint <= 0xDFFF {
      return Malformed;
    }
    return Scalar(codepoint, width);
  }

  /** One turn of the sanitizing loop: what to show for the bytes at `index`, and how many they are. */
  method ReadPiece(text: string, index: nat) returns (piece: Piece)
    requires index < |text|
    ensures piece == NextPiece(text[index..])
  {
    ghost var s := text[index..];
    var byte := text[index];
    var sgr := ScanSgr(text, index);
    if sgr > 0 {
      assert s[..sgr] == text[index..index + sgr];
      return Piece(sgr, text[index..index + sgr]);
    }
    if byte as int < 0x20 || byte as int == 0x7F {
      return Piece(1, HexEscape(byte));
    }
    if byte as int < 0x80 {
      assert s[..1] == [byte];
      return Piece(1, [byte]);
    }
    var decoded := Decode(text, index);
    match decoded {
      case Malformed =>
        return Piece(1, HexEscape(byte));
      case Scalar(codepoint, width) =>
        assert s[..width] == text[index..index + width];
        return Piece(width, if FormatCodepoint(codepoint) then UnicodeEscape(codepoint) else text[index..index + width]);
    }
  }

  /** The final output, once `output` is what was shown for the input before `index`. */
  function Completed(text: string, maximum: nat, index: nat, output: string): string
    requires index <= |text|
  {
    output + ShownUpTo(Pieces(text[index..]), |output|, maximum)
  }

  lemma CompletedStep(text: string, maximum: nat, index: nat, output: string)
    requires index < |text| && |output| < maximum
    ensures var p := NextPiece(text[index..]);
            Completed(text, maximum, index, output) == Completed(text, maximum, index + p.width, output + p.shown)
  {
    var p := NextPiece(text[index..]);
    var ahead := Pieces(text[index + p.width..]);
    assert text[index..][p.width..] == text[index + p.width..];
    assert Pieces(text[index..])[1..] == ahead;
    ConcatAssociative(output, p.shown, ShownUpTo(ahead, |output| + |p.shown|, maximum));
  }

  method SanitizeTerminalText(text: string, maximum: nat) returns (output: string)
    ensures output == Sanitized(text, maximum)
  {
    output := "";
    var index := 0;
    assert text[0..] == text;
    while index < |text|
      invariant index <= |text|
      invariant Completed(text, maximum, index, output) == Sanitized(text, maximum)
    {
      if |output| >= maximum {
        output := output + TRUNCATION_MARK;
        return;
      }
      var piece := ReadPiece(text, index);
      CompletedStep(text, maximum, index, output);
      output := output + piece.shown;
      index := index + piece.width;
    }
  }
}
