/** What `TerminalText.Sanitized` may produce, and when sanitizing twice changes nothing. */
module TerminalLanguage {
  import opened Text
  import opened TerminalText
  import opened Utf8

  /** The value that `TailBits` builds, written out for each width. */
  function ScalarBits(s: string, width: nat): nat
    requires 2 <= width <= 4 && width <= |s|
  {
    var lead := LeadBits(s[0] as int, width);
    if width == 2 then lead * 64 + s[1] as int % 64
    else if width == 3 then lead * 4096 + s[1] as int % 64 * 64 + s[2] as int % 64
    else lead * 0x4_0000 + s[1] as int % 64 * 4096 + s[2] as int % 64 * 64 + s[3] as int % 64
  }

  lemma TailBitsWrittenOut(s: string, width: nat)
    requires 2 <= width <= 4 && width <= |s|
    ensures TailBits(s, 1, width, LeadBits(s[0] as int, width)) ==
            if forall k :: 1 <= k < width ==> Utf8Tail(s[k]) then Some(ScalarBits(s, width)) else None
  {
    var lead := LeadBits(s[0] as int, width);
    forall k | 1 <= k < width ensures Utf8Tail(s[k]) <==> s[k] as int / 64 == 2 {}
    assert Utf8Tail(s[1]) ==>
        TailBits(s, 1, width, lead) == TailBits(s, 2, width, lead * 64 + s[1] as int % 64);
    if width > 2 && Utf8Tail(s[1]) && Utf8Tail(s[2]) {
      var two := (lead * 64 + s[1] as int % 64) * 64 + s[2] as int % 64;
      assert TailBits(s, 1, width, lead) == TailBits(s, 3, width, two);
    }
  }

  /** The decoder takes a sequence of two or more bytes exactly when the grammar does, and at the same width. */
  lemma DecoderAcceptsExactlyTheGrammar(s: string, n: nat)
    requires s != [] && s[0] as int >= 0x80 && n <= |s|
    ensures DecodeMultibyte(s).Scalar? && DecodeMultibyte(s).width == n <==> Utf8Char(s[..n])
  {
    var width := LeadWidth(s[0] as int);
    if 0 < width <= |s| {
      TailBitsWrittenOut(s, width);
    }
  }

  /** Every sequence the decoder takes is the encoding of the scalar value it reports. */
  lemma DecodedIsEncoded(s: string)
    requires s != [] && s[0] as int >= 0x80 && DecodeMultibyte(s).Scalar?
    ensures IsScalar(DecodeMultibyte(s).codepoint)
    ensures Utf8Encode(DecodeMultibyte(s).codepoint) == s[..DecodeMultibyte(s).width]
  {
    var Scalar(codepoint, width) := DecodeMultibyte(s);
    TailBitsWrittenOut(s, width);
    forall k | 0 < k < width ensures s[k] as int == 0x80 + s[k] as int % 64 {
      assert Utf8Tail(s[k]);
    }
    if width == 2 {
      TwoBytesAreEncoded(s);
    } else if width == 3 {
      ThreeBytesAreEncoded(s);
    } else {
      FourBytesAreEncoded(s);
    }
  }

  /** The bytes behind the lead byte carry six bits each. */
  predicate TailsAfter(s: string, width: nat)
    requires width <= |s|
  {
    forall k :: 0 < k < width ==> s[k] as int == 0x80 + s[k] as int % 64
  }

  lemma TwoBytesAreEncoded(s: string)
    requires |s| >= 2 && LeadWidth(s[0] as int) == 2 && TailsAfter(s, 2) && ScalarBits(s, 2) >= 0x80
    ensures IsScalar(ScalarBits(s, 2)) && Utf8Encode(ScalarBits(s, 2)) == s[..2]
  {
    SixBitDigits(0, 0, LeadBits(s[0] as int, 2), s[1] as int % 64);
  }

  lemma ThreeBytesAreEncoded(s: string)
    requires |s| >= 3 && LeadWidth(s[0] as int) == 3 && TailsAfter(s, 3) && ScalarBits(s, 3) >= 0x800
    requires IsScalar(ScalarBits(s, 3))
    ensures Utf8Encode(ScalarBits(s, 3)) == s[..3]
  {
    SixBitDigits(0, LeadBits(s[0] as int, 3), s[1] as int % 64, s[2] as int % 64);
    assert ScalarBits(s, 3) / 4096 == LeadBits(s[0] as int, 3);
  }

  lemma FourBytesAreEncoded(s: string)
    requires |s| >= 4 && LeadWidth(s[0] as int) == 4 && TailsAfter(s, 4) && ScalarBits(s, 4) >= 0x1_0000
    requires IsScalar(ScalarBits(s, 4))
    ensures Utf8Encode(ScalarBits(s, 4)) == s[..4]
  {
    SixBitDigits(LeadBits(s[0] as int, 4), s[1] as int % 64, s[2] as int % 64, s[3] as int % 64);
  }

  /**
   At a byte above 127 the sanitizer takes the UTF8-char that starts there, if one does: it passes it, or
   shows the \u escape of its code point when that is a format character. Otherwise it hex-escapes one byte.
   */
  lemma NextPieceFollowsTheGrammar(s: string)
    requires s != [] && s[0] as int >= 0x80
    ensures forall n :: 0 <= n <= |s| && Utf8Char(s[..n]) ==>
              exists codepoint: nat :: IsScalar(codepoint) && Utf8Encode(codepoint) == s[..n] &&
                NextPiece(s) == Piece(n, if FormatCodepoint(codepoint) then UnicodeEscape(codepoint) else s[..n])
    ensures (forall n :: 0 <= n <= |s| ==> !Utf8Char(s[..n])) ==> NextPiece(s) == Piece(1, HexEscape(s[0]))
  {
    forall n | 0 <= n <= |s|
      ensures DecodeMultibyte(s).Scalar? && DecodeMultibyte(s).width == n <==> Utf8Char(s[..n])
    {
      DecoderAcceptsExactlyTheGrammar(s, n);
    }
    if DecodeMultibyte(s).Scalar? {
      DecodedIsEncoded(s);
      assert Utf8Char(s[..DecodeMultibyte(s).width]);
    }
  }

  lemma SgrLengthOf(u: string, rest: string)
    requires IsSgr(u)
    ensures SgrLength(u + rest) == |u|
  {
    SgrEndFindsTheEnd(u + rest, 2, |u| - 1);
  }

  /**
   What is shown for a byte of ASCII. A whole SGR sequence is shown as it is; otherwise a control byte is shown as
   `\x` and two digits that name it, and any other byte as itself.
   */
  lemma NextPieceOfAscii(s: string)
    requires s != [] && s[0] as int < 0x80
    ensures forall n :: 0 <= n <= |s| && IsSgr(s[..n]) ==> NextPiece(s) == Piece(n, s[..n])
    ensures (forall n :: 0 <= n <= |s| ==> !IsSgr(s[..n])) ==>
              var (width, shown) := (NextPiece(s).width, NextPiece(s).shown);
              && width == 1
              && if s[0] as int < 32 || s[0] as int == 127
                 then |shown| == 4 && shown[0] == '\\' && shown[1] == 'x'
                      && HexValue(shown[2]) * 16 + HexValue(shown[3]) == s[0] as int
                 else shown == [s[0]]
  {
    forall n | 0 <= n <= |s| && IsSgr(s[..n]) ensures SgrLength(s) == n {
      assert s == s[..n] + s[n..];
      SgrLengthOf(s[..n], s[n..]);
    }
    if SgrLength(s) > 0 {
      SgrLengthIsSgr(s);
    } else {
      HexEscapeNamesTheByte(s[0]);
    }
  }

  lemma HexDigitReadsBack(d: nat)
    requires d < 16
    ensures HexValue(HEX_DIGITS[d]) == d
  {
  }

  /** A byte can be read off its escape. */
  lemma HexEscapeNamesTheByte(byte: char)
    requires byte as int < 256
    ensures var x := HexEscape(byte); |x| == 4 && x[0] == '\\' && x[1] == 'x' && HexValue(x[2]) * 16 + HexValue(x[3]) == byte as int
  {
    var x := HexEscape(byte);
    HexDigitReadsBack(byte as int / 16);
    HexDigitReadsBack(byte as int % 16);
    assert byte as int / 16 % 16 == byte as int / 16;
    assert x[2] == HEX_DIGITS[byte as int / 16] && x[3] == HEX_DIGITS[byte as int % 16];
  }

  lemma FourBitDigits(n: nat)
    requires n < 0x1_0000
    ensures n == n / 4096 % 16 * 4096 + n / 256 % 16 * 256 + n / 16 % 16 * 16 + n % 16
  {
    assert n / 256 == n / 4096 * 16 + n / 256 % 16;
    assert n / 16 == n / 256 * 16 + n / 16 % 16;
  }

  lemma UnicodeEscapeDigits(codepoint: nat)
    ensures var u := UnicodeEscape(codepoint);
            && |u| == 6
            && HexValue(u[2]) == codepoint / 4096 % 16 && HexValue(u[3]) == codepoint / 256 % 16
            && HexValue(u[4]) == codepoint / 16 % 16 && HexValue(u[5]) == codepoint % 16
  {
    HexDigitReadsBack(codepoint / 4096 % 16);
    HexDigitReadsBack(codepoint / 256 % 16);
    HexDigitReadsBack(codepoint / 16 % 16);
    HexDigitReadsBack(codepoint % 16);
  }

  /** A format character can be read off its escape: all of them have at most sixteen bits. */
  lemma UnicodeEscapeNamesTheCodepoint(codepoint: nat)
    requires FormatCodepoint(codepoint)
    ensures var u := UnicodeEscape(codepoint);
            |u| == 6 && u[0] == '\\' && u[1] == 'u' &&
            HexValue(u[2]) * 4096 + HexValue(u[3]) * 256 + HexValue(u[4]) * 16 + HexValue(u[5]) == codepoint
  {
    UnicodeEscapeDigits(codepoint);
    FourBitDigits(codepoint);
  }

  // ----- The output language ---------------------------------------------------

  predicate IsSgr(u: string) {
    && |u| >= 3 && u[0] as int == 27 && u[1] == '[' && u[|u| - 1] == 'm'
    && forall k :: 2 <= k < |u| - 1 ==> '0' <= u[k] <= '9' || u[k] == ';'
  }

  ghost predicate EncodesFormatCodepoint(u: string) {
    exists codepoint: nat :: IsScalar(codepoint) && FormatCodepoint(codepoint) && u == Utf8Encode(codepoint)
  }

  /** The bytes of the characters that are never shown: C1 controls, zero-width and bidirectional ones, and U+FEFF. */
  predicate HiddenBytes(u: string) {
    || (|u| == 2 && u[0] as int == 0xC2 && 0x80 <= u[1] as int <= 0x9F)
    || (|u| == 3 && u[0] as int == 0xE2 && u[1] as int == 0x80 && (0x8B <= u[2] as int <= 0x8F || 0xAA <= u[2] as int <= 0xAE))
    || (|u| == 3 && u[0] as int == 0xE2 && u[1] as int == 0x81 && (u[2] as int == 0xA0 || 0xA6 <= u[2] as int <= 0xA9))
    || (|u| == 3 && u[0] as int == 0xEF && u[1] as int == 0xBB && u[2] as int == 0xBF)
  }

  lemma HiddenBytesExactly(codepoint: nat)
    requires IsScalar(codepoint)
    ensures FormatCodepoint(codepoint) <==> HiddenBytes(Utf8Encode(codepoint))
  {
  }

  /** A format character is known by its bytes. */
  lemma FormatCharactersAreListed(u: string)
    requires Utf8Char(u)
    ensures EncodesFormatCodepoint(u) <==> HiddenBytes(u)
  {
    forall codepoint: nat | IsScalar(codepoint) && u == Utf8Encode(codepoint)
      ensures FormatCodepoint(codepoint) <==> HiddenBytes(u)
    {
      HiddenBytesExactly(codepoint);
    }
    if |u| > 1 {
      DecoderAcceptsExactlyTheGrammar(u, |u|);
      DecodedIsEncoded(u);
      assert u[..|u|] == u;
    }
  }

  predicate IsPrintable(c: char) {
    0x20 <= c as int < 0x7F
  }

  /** A printable ASCII character, a whole SGR sequence, or a harmless longer UTF8-char. */
  ghost predicate SafeUnit(u: string) {
    || (|u| == 1 && IsPrintable(u[0]))
    || IsSgr(u)
    || (|u| > 1 && Utf8Char(u) && !EncodesFormatCodepoint(u))
  }

  ghost predicate SafeUnits(units: seq<string>) {
    forall k :: 0 <= k < |units| ==> SafeUnit(units[k])
  }

  ghost predicate SafeText(s: string) {
    exists units :: SafeUnits(units) && s == Flatten(units)
  }

  /** The pieces shown before the limit. */
  function Fitting(pieces: seq<Piece>, used: nat, maximum: nat): (kept: seq<Piece>)
    ensures |kept| <= |pieces| && kept == pieces[..|kept|]
  {
    if pieces == [] || used >= maximum then []
    else [pieces[0]] + Fitting(pieces[1..], used + |pieces[0].shown|, maximum)
  }

  function Shown(pieces: seq<Piece>): string {
    if pieces == [] then [] else pieces[0].shown + Shown(pieces[1..])
  }

  /** The truncation mark, when some of `pieces` did not fit. */
  function Mark(pieces: seq<Piece>, kept: seq<Piece>): string {
    if |kept| < |pieces| then TRUNCATION_MARK else []
  }

  lemma {:induction false} ShownUpToIsKeptAndMark(pieces: seq<Piece>, used: nat, maximum: nat)
    ensures ShownUpTo(pieces, used, maximum) ==
            Shown(Fitting(pieces, used, maximum)) + Mark(pieces, Fitting(pieces, used, maximum))
  {
    if pieces != [] && used < maximum {
      var later := used + |pieces[0].shown|;
      var kept := Fitting(pieces[1..], later, maximum);
      ShownUpToIsKeptAndMark(pieces[1..], later, maximum);
      assert Fitting(pieces, used, maximum)[1..] == kept;
    }
  }

  function Kept(text: string, maximum: nat): seq<Piece> {
    Fitting(Pieces(text), 0, maximum)
  }

  /** The units a piece contributes: an escape is read back one character at a time. */
  function PieceUnits(p: Piece): seq<string> {
    if p.width == |p.shown| then [p.shown] else Singletons(p.shown)
  }

  function Units(pieces: seq<Piece>): (units: seq<string>) {
    if pieces == [] then [] else PieceUnits(pieces[0]) + Units(pieces[1..])
  }

  lemma {:induction false} SgrEndFindsTheEnd(s: string, from: nat, end: nat)
    requires from <= end <= |s|
    requires forall k :: from <= k < end ==> SgrParameter(s[k])
    requires end < |s| ==> !SgrParameter(s[end])
    ensures SgrEnd(s, from) == end
    decreases end - from
  {
    if from < end {
      SgrEndFindsTheEnd(s, from + 1, end);
    }
  }

  lemma {:induction false} SgrEndSkipsParameters(s: string, from: nat)
    requires from <= |s|
    ensures forall k :: from <= k < SgrEnd(s, from) ==> SgrParameter(s[k])
    decreases |s| - from
  {
    if from < |s| && SgrParameter(s[from]) {
      SgrEndSkipsParameters(s, from + 1);
    }
  }

  lemma SgrLengthIsSgr(s: string)
    requires SgrLength(s) > 0
    ensures IsSgr(s[..SgrLength(s)])
  {
    SgrEndSkipsParameters(s, 2);
  }

  lemma EscapesArePrintable(byte: char, codepoint: nat)
    ensures SafeUnits(Singletons(HexEscape(byte)))
    ensures SafeUnits(Singletons(UnicodeEscape(codepoint)))
  {
    assert forall c :: c in HEX_DIGITS ==> IsPrintable(c);
    assert forall c :: c in HexEscape(byte) ==> IsPrintable(c);
    assert forall c :: c in UnicodeEscape(codepoint) ==> IsPrintable(c);
  }

  lemma ScalarPieceIsSafe(s: string)
    requires s != [] && s[0] as int >= 0x80 && DecodeMultibyte(s).Scalar?
    requires !FormatCodepoint(DecodeMultibyte(s).codepoint)
    ensures SafeUnit(s[..DecodeMultibyte(s).width])
  {
    var Scalar(decoded, width) := DecodeMultibyte(s);
    DecoderAcceptsExactlyTheGrammar(s, width);
    DecodedIsEncoded(s);
    forall codepoint: nat | IsScalar(codepoint) && s[..width] == Utf8Encode(codepoint)
      ensures !FormatCodepoint(codepoint)
    {
      EncodingIsInjective(codepoint, decoded);
    }
  }

  /** Whatever a piece shows is made of safe units; verbatim pieces are one unit. */
  lemma PieceIsSafe(s: string)
    requires s != []
    ensures SafeUnits(PieceUnits(NextPiece(s)))
    ensures NextPiece(s).width == |NextPiece(s).shown| ==> NextPiece(s).shown == s[..NextPiece(s).width]
  {
    EscapesArePrintable(s[0], if DecodeMultibyte(s).Scalar? then DecodeMultibyte(s).codepoint else 0);
    if SgrLength(s) > 0 {
      SgrLengthIsSgr(s);
    } else if s[0] as int >= 0x80 && DecodeMultibyte(s).Scalar? {
      if !FormatCodepoint(DecodeMultibyte(s).codepoint) {
        ScalarPieceIsSafe(s);
      }
    }
  }

  /** A safe unit reads back as one verbatim piece, whatever follows it. */
  lemma SafeUnitIsRead(u: string, rest: string)
    requires SafeUnit(u)
    ensures u != [] && NextPiece(u + rest) == Piece(|u|, u)
  {
    var s := u + rest;
    assert s[..|u|] == u;
    if IsSgr(u) {
      SgrEndFindsTheEnd(s, 2, |u| - 1);
    } else if |u| > 1 {
      DecoderAcceptsExactlyTheGrammar(s, |u|);
      DecodedIsEncoded(s);
    }
  }

  function Verbatim(units: seq<string>): seq<Piece> {
    seq(|units|, k requires 0 <= k < |units| => Piece(|units[k]|, units[k]))
  }

  lemma {:induction false} ShownVerbatim(units: seq<string>)
    ensures Shown(Verbatim(units)) == Flatten(units)
  {
    if units != [] {
      ShownVerbatim(units[1..]);
      assert Verbatim(units)[1..] == Verbatim(units[1..]);
    }
  }

  /** Safe text is cut exactly at its unit boundaries. */
  lemma {:induction false} SafeTextIsRead(units: seq<string>)
    requires SafeUnits(units)
    ensures Pieces(Flatten(units)) == Verbatim(units)
  {
    if units != [] {
      var rest := Flatten(units[1..]);
      SafeUnitIsRead(units[0], rest);
      SafeTextIsRead(units[1..]);
      assert (units[0] + rest)[|units[0]|..] == rest;
    }
  }

  ghost predicate SafePieces(pieces: seq<Piece>) {
    forall k :: 0 <= k < |pieces| ==> SafeUnits(PieceUnits(pieces[k]))
  }

  lemma {:induction false} PiecesAreSafe(s: string)
    ensures SafePieces(Pieces(s))
    decreases |s|
  {
    if s != [] {
      PieceIsSafe(s);
      PiecesAreSafe(s[NextPiece(s).width..]);
    }
  }

  lemma {:induction false} UnitsAreSafe(pieces: seq<Piece>)
    requires SafePieces(pieces)
    ensures SafeUnits(Units(pieces))
  {
    if pieces != [] {
      assert SafeUnits(PieceUnits(pieces[0]));
      UnitsAreSafe(pieces[1..]);
    }
  }

  lemma FlattenPieceUnits(p: Piece)
    ensures Flatten(PieceUnits(p)) == p.shown
  {
    FlattenSingletons(p.shown);
    assert Flatten([p.shown]) == p.shown + Flatten<char>([]);
  }

  lemma {:induction false} FlattenUnits(pieces: seq<Piece>)
    ensures Flatten(Units(pieces)) == Shown(pieces)
  {
    if pieces != [] {
      FlattenAppend(PieceUnits(pieces[0]), Units(pieces[1..]));
      FlattenPieceUnits(pieces[0]);
      FlattenUnits(pieces[1..]);
    }
  }

  /** The units of the sanitizer's output. */
  function OutputUnits(text: string, maximum: nat): seq<string> {
    var kept := Kept(text, maximum);
    Units(kept) + Singletons(Mark(Pieces(text), kept))
  }

  lemma OutputUnitsAreSafe(text: string, maximum: nat)
    ensures SafeUnits(OutputUnits(text, maximum))
  {
    PiecesAreSafe(text);
    UnitsAreSafe(Kept(text, maximum));
    assert forall c :: c in TRUNCATION_MARK ==> IsPrintable(c);
  }

  lemma OutputIsMadeOfUnits(text: string, maximum: nat)
    ensures Flatten(OutputUnits(text, maximum)) == Sanitized(text, maximum)
            == Shown(Kept(text, maximum)) + Mark(Pieces(text), Kept(text, maximum))
  {
    var kept := Kept(text, maximum);
    var mark := Mark(Pieces(text), kept);
    FlattenAppend(Units(kept), Singletons(mark));
    FlattenUnits(kept);
    FlattenSingletons(mark);
    ShownUpToIsKeptAndMark(Pieces(text), 0, maximum);
  }

  /** The pieces of an output are its units, taken verbatim. */
  lemma OutputIsRead(text: string, maximum: nat)
    ensures Pieces(Sanitized(text, maximum)) == Verbatim(OutputUnits(text, maximum))
  {
    OutputUnitsAreSafe(text, maximum);
    OutputIsMadeOfUnits(text, maximum);
    SafeTextIsRead(OutputUnits(text, maximum));
  }

  /** Every output, at every limit, is in the output language. */
  lemma OutputIsSafe(text: string, maximum: nat)
    ensures SafeText(Sanitized(text, maximum))
  {
    OutputUnitsAreSafe(text, maximum);
    OutputIsMadeOfUnits(text, maximum);
  }

  // ----- What the output language rules out -----------------------------------------

  ghost predicate HarmlessChar(u: string) {
    Utf8Char(u) && !EncodesFormatCodepoint(u)
  }

  /** `s` is a sequence of UTF8-chars none of which is a C1 control, format character or byte-order mark. */
  ghost predicate HarmlessUtf8(s: string) {
    exists chars: seq<string> :: s == Flatten(chars) && forall k :: 0 <= k < |chars| ==> HarmlessChar(chars[k])
  }

  lemma HarmlessUtf8Append(left: string, right: string)
    requires HarmlessUtf8(left) && HarmlessUtf8(right)
    ensures HarmlessUtf8(left + right)
  {
    var a :| left == Flatten(a) && forall k :: 0 <= k < |a| ==> HarmlessChar(a[k]);
    var b :| right == Flatten(b) && forall k :: 0 <= k < |b| ==> HarmlessChar(b[k]);
    FlattenAppend(a, b);
    assert forall k :: 0 <= k < |a + b| ==> HarmlessChar((a + b)[k]);
  }

  lemma SafeUnitIsHarmless(u: string)
    requires SafeUnit(u)
    ensures HarmlessUtf8(u)
  {
    if |u| > 1 && Utf8Char(u) {
      assert Flatten([u]) == u + Flatten<char>([]);
      assert !IsSgr(u);
      assert HarmlessChar([u][0]);
    } else {
      var chars := Singletons(u);
      FlattenSingletons(u);
      forall k | 0 <= k < |chars| ensures HarmlessChar(chars[k]) {
        assert SgrParameter(u[k]) || k < 2 || k == |u| - 1;
      }
    }
  }

  /** The output of the sanitizer is well-formed UTF-8 without hidden controls. */
  lemma {:induction false} SafeTextIsHarmless(units: seq<string>)
    requires SafeUnits(units)
    ensures HarmlessUtf8(Flatten(units))
  {
    if units == [] {
      var none: seq<string> := [];
      assert Flatten(none) == "";
    } else {
      SafeUnitIsHarmless(units[0]);
      SafeTextIsHarmless(units[1..]);
      HarmlessUtf8Append(units[0], Flatten(units[1..]));
    }
  }

  lemma OutputIsHarmlessUtf8(text: string, maximum: nat)
    ensures HarmlessUtf8(Sanitized(text, maximum))
  {
    OutputUnitsAreSafe(text, maximum);
    OutputIsMadeOfUnits(text, maximum);
    SafeTextIsHarmless(OutputUnits(text, maximum));
  }

  /** Position `i` holds no DEL, and a C0 byte only if it is the ESC of a whole SGR sequence. */
  ghost predicate ControlsAreSgr(s: string, i: nat)
    requires i < |s|
  {
    && s[i] as int != 0x7F
    && (s[i] as int < 0x20 ==> s[i] == ESC && exists end :: i < end <= |s| && IsSgr(s[i..end]))
  }

  lemma SafeUnitControlsAreSgr(u: string, rest: string, i: nat)
    requires SafeUnit(u) && i < |u|
    ensures ControlsAreSgr(u + rest, i)
  {
    if IsSgr(u) {
      assert (u + rest)[0..|u|] == u;
      assert i < 2 || i == |u| - 1 || SgrParameter(u[i]);
    }
  }

  lemma ControlsAreSgrShifted(before: string, s: string, i: nat)
    requires i < |s| && ControlsAreSgr(s, i)
    ensures ControlsAreSgr(before + s, |before| + i)
  {
    if s[i] as int < 0x20 {
      var end :| i < end <= |s| && IsSgr(s[i..end]);
      assert (before + s)[|before| + i..|before| + end] == s[i..end];
    }
  }

  lemma {:induction false} SafeTextControlsAreSgr(units: seq<string>, i: nat)
    requires SafeUnits(units) && i < |Flatten(units)|
    ensures ControlsAreSgr(Flatten(units), i)
  {
    var u, rest := units[0], Flatten(units[1..]);
    if i < |u| {
      SafeUnitControlsAreSgr(u, rest, i);
    } else {
      SafeTextControlsAreSgr(units[1..], i - |u|);
      ControlsAreSgrShifted(u, rest, i - |u|);
    }
  }

  lemma OutputControlsAreSgr(text: string, maximum: nat, i: nat)
    requires i < |Sanitized(text, maximum)|
    ensures ControlsAreSgr(Sanitized(text, maximum), i)
  {
    OutputUnitsAreSafe(text, maximum);
    OutputIsMadeOfUnits(text, maximum);
    SafeTextControlsAreSgr(OutputUnits(text, maximum), i);
  }

  // ----- Sanitizing twice --------------------------------------------------------

  /** Laid out after `used` bytes, every unit starts below the limit. */
  predicate StartBelow(units: seq<string>, used: nat, maximum: nat) {
    units == [] || (used < maximum && StartBelow(units[1..], used + |units[0]|, maximum))
  }

  lemma {:induction false} StartBelowAppend(left: seq<string>, right: seq<string>, used: nat, maximum: nat)
    requires StartBelow(left, used, maximum)
    requires StartBelow(right, used + |Flatten(left)|, maximum)
    ensures StartBelow(left + right, used, maximum)
  {
    if left == [] {
      assert left + right == right;
    } else {
      StartBelowAppend(left[1..], right, used + |left[0]|, maximum);
      assert (left + right)[1..] == left[1..] + right;
    }
  }

  lemma {:induction false} NonemptyUnitsStartBelow(units: seq<string>, used: nat, maximum: nat)
    requires forall k :: 0 <= k < |units| ==> units[k] != []
    requires used + |Flatten(units)| <= maximum
    ensures StartBelow(units, used, maximum)
  {
    if units != [] {
      NonemptyUnitsStartBelow(units[1..], used + |units[0]|, maximum);
    }
  }

  /** Units that each start below the limit are all shown, and what follows them is judged from there. */
  lemma {:induction false} UnitsBelowTheLimitAreShown(units: seq<string>, rest: seq<string>, used: nat, maximum: nat)
    requires StartBelow(units, used, maximum)
    ensures ShownUpTo(Verbatim(units + rest), used, maximum) ==
            Flatten(units) + ShownUpTo(Verbatim(rest), used + |Flatten(units)|, maximum)
  {
    if units == [] {
      assert units + rest == rest;
    } else {
      var first, later := units[0], units[1..];
      UnitsBelowTheLimitAreShown(later, rest, used + |first|, maximum);
      assert Verbatim(units + rest)[1..] == Verbatim(later + rest);
      ConcatAssociative(first, Flatten(later), ShownUpTo(Verbatim(rest), used + |Flatten(units)|, maximum));
    }
  }

  /** Safe text within the limit is left alone. */
  lemma SafeTextIsUnchanged(s: string, maximum: nat)
    requires SafeText(s) && |s| <= maximum
    ensures Sanitized(s, maximum) == s
  {
    var units :| SafeUnits(units) && s == Flatten(units);
    SafeTextIsRead(units);
    NonemptyUnitsStartBelow(units, 0, maximum);
    UnitsBelowTheLimitAreShown(units, [], 0, maximum);
    assert units + [] == units;
  }

  /** An output that fits its limit is a fixed point, so text painted first and listed later is escaped once. */
  lemma OutputWithinTheLimitIsFixed(text: string, maximum: nat)
    requires |Sanitized(text, maximum)| <= maximum
    ensures Sanitized(Sanitized(text, maximum), maximum) == Sanitized(text, maximum)
  {
    OutputIsSafe(text, maximum);
    SafeTextIsUnchanged(Sanitized(text, maximum), maximum);
  }

  /** The last of the kept pieces is an escape that ends beyond the limit. */
  predicate EndsInCrossingEscape(kept: seq<Piece>, used: nat, maximum: nat) {
    && kept != []
    && kept[|kept| - 1].width != |kept[|kept| - 1].shown|
    && used + |Shown(kept)| > maximum
  }

  /** The longest escape has six characters. */
  predicate ShortEscapes(pieces: seq<Piece>) {
    forall k :: 0 <= k < |pieces| && pieces[k].width != |pieces[k].shown| ==> |pieces[k].shown| <= 6
  }

  lemma {:induction false} EscapesAreShort(s: string)
    ensures ShortEscapes(Pieces(s))
    decreases |s|
  {
    if s != [] {
      EscapesAreShort(s[NextPiece(s).width..]);
    }
  }

  lemma PieceUnitsStartBelow(p: Piece, used: nat, maximum: nat)
    requires used < maximum && (p.width == |p.shown| || used + |p.shown| <= maximum)
    ensures StartBelow(PieceUnits(p), used, maximum)
    ensures Flatten(PieceUnits(p)) == p.shown
  {
    FlattenPieceUnits(p);
    if p.width != |p.shown| {
      NonemptyUnitsStartBelow(PieceUnits(p), used, maximum);
    }
  }

  lemma {:induction false} FittingUnitsStartBelow(pieces: seq<Piece>, used: nat, maximum: nat)
    requires !EndsInCrossingEscape(Fitting(pieces, used, maximum), used, maximum)
    ensures StartBelow(Units(Fitting(pieces, used, maximum)), used, maximum)
  {
    if pieces != [] && used < maximum {
      var first := pieces[0];
      var after := used + |first.shown|;
      var later := Fitting(pieces[1..], after, maximum);
      assert Fitting(pieces, used, maximum)[1..] == later;
      FittingUnitsStartBelow(pieces[1..], after, maximum);
      PieceUnitsStartBelow(first, used, maximum);
      StartBelowAppend(PieceUnits(first), Units(later), used, maximum);
    }
  }

  /** A crossing escape is cut at the limit when it is read back one character at a time. */
  lemma EscapeIsCutAtTheLimit(escape: string, after: seq<string>, used: nat, maximum: nat)
    requires used < maximum < used + |escape|
    ensures |ShownUpTo(Verbatim(Singletons(escape) + after), used, maximum)| == maximum - used + |TRUNCATION_MARK|
  {
    var cut := maximum - used;
    var low, high := Singletons(escape[..cut]), Singletons(escape[cut..]) + after;
    FlattenSingletons(escape[..cut]);
    NonemptyUnitsStartBelow(low, used, maximum);
    UnitsBelowTheLimitAreShown(low, high, used, maximum);
    assert Singletons(escape) + after == low + high;
  }

  lemma {:induction false} CrossingEscapeIsCut(pieces: seq<Piece>, after: seq<string>, used: nat, maximum: nat)
    requires ShortEscapes(pieces)
    requires EndsInCrossingEscape(Fitting(pieces, used, maximum), used, maximum)
    ensures |ShownUpTo(Verbatim(Units(Fitting(pieces, used, maximum)) + after), used, maximum)|
            == maximum - used + |TRUNCATION_MARK|
    ensures used + |Shown(Fitting(pieces, used, maximum))| <= maximum + 6
  {
    var first := pieces[0];
    var next := used + |first.shown|;
    var later := Fitting(pieces[1..], next, maximum);
    var kept := Fitting(pieces, used, maximum);
    assert kept[1..] == later;
    if later == [] {
      assert Shown(kept) == first.shown;
      assert Units(kept) == PieceUnits(first);
      EscapeIsCutAtTheLimit(first.shown, after, used, maximum);
    } else {
      assert kept[|kept| - 1] == later[|later| - 1];
      CrossingEscapeIsCut(pieces[1..], after, next, maximum);
      PieceIsShownFirst(first, Units(later), after, used, maximum);
    }
  }

  lemma PieceIsShownFirst(first: Piece, later: seq<string>, after: seq<string>, used: nat, maximum: nat)
    requires used < maximum && (first.width == |first.shown| || used + |first.shown| <= maximum)
    ensures ShownUpTo(Verbatim(PieceUnits(first) + later + after), used, maximum) ==
            first.shown + ShownUpTo(Verbatim(later + after), used + |first.shown|, maximum)
  {
    PieceUnitsStartBelow(first, used, maximum);
    ConcatAssociative(PieceUnits(first), later, after);
    UnitsBelowTheLimitAreShown(PieceUnits(first), later + after, used, maximum);
  }

  lemma {:induction false} UnfitPiecesAreBeyond(pieces: seq<Piece>, used: nat, maximum: nat)
    ensures var kept := Fitting(pieces, used, maximum);
            |kept| < |pieces| ==> used + |Shown(kept)| >= maximum
  {
    if pieces != [] && used < maximum {
      UnfitPiecesAreBeyond(pieces[1..], used + |pieces[0].shown|, maximum);
      assert Fitting(pieces, used, maximum)[1..] == Fitting(pieces[1..], used + |pieces[0].shown|, maximum);
    }
  }

  /** What the second pass shows, unit by unit of the first output. */
  function SecondPass(text: string, maximum: nat): string {
    ShownUpTo(Verbatim(OutputUnits(text, maximum)), 0, maximum)
  }

  /** A mark beyond the limit is shown as itself: nothing of it, and the mark in its place. */
  lemma MarkIsShownAgain(mark: string, used: nat, maximum: nat)
    requires mark == [] || (mark == TRUNCATION_MARK && used >= maximum)
    ensures ShownUpTo(Verbatim(Singletons(mark)), used, maximum) == mark
  {
    assert |Verbatim(Singletons(mark))| == |mark|;
  }

  lemma UnitsAreShownAgain(kept: seq<Piece>, maximum: nat, rest: seq<string>)
    requires StartBelow(Units(kept), 0, maximum)
    ensures ShownUpTo(Verbatim(Units(kept) + rest), 0, maximum) ==
            Shown(kept) + ShownUpTo(Verbatim(rest), |Shown(kept)|, maximum)
  {
    FlattenUnits(kept);
    UnitsBelowTheLimitAreShown(Units(kept), rest, 0, maximum);
  }

  lemma SecondPassWithoutACrossingEscape(text: string, maximum: nat)
    requires !EndsInCrossingEscape(Kept(text, maximum), 0, maximum)
    ensures SecondPass(text, maximum) == Shown(Kept(text, maximum)) + Mark(Pieces(text), Kept(text, maximum))
  {
    var kept := Kept(text, maximum);
    var mark := Mark(Pieces(text), kept);
    FittingUnitsStartBelow(Pieces(text), 0, maximum);
    UnitsAreShownAgain(kept, maximum, Singletons(mark));
    UnfitPiecesAreBeyond(Pieces(text), 0, maximum);
    MarkIsShownAgain(mark, |Shown(kept)|, maximum);
  }

  lemma SecondPassWithACrossingEscape(text: string, maximum: nat)
    requires EndsInCrossingEscape(Kept(text, maximum), 0, maximum)
    ensures |SecondPass(text, maximum)| == maximum + |TRUNCATION_MARK|
    ensures maximum < |Shown(Kept(text, maximum))| <= maximum + 6
  {
    var kept := Kept(text, maximum);
    EscapesAreShort(text);
    CrossingEscapeIsCut(Pieces(text), Singletons(Mark(Pieces(text), kept)), 0, maximum);
  }

  /** Exactly when the second pass changes nothing: unless an escape crosses the limit. */
  lemma SanitizingTwiceExactly(text: string, maximum: nat)
    ensures Sanitized(Sanitized(text, maximum), maximum) == Sanitized(text, maximum)
            <==> !EndsInCrossingEscape(Kept(text, maximum), 0, maximum)
  {
    OutputIsMadeOfUnits(text, maximum);
    OutputIsRead(text, maximum);
    if EndsInCrossingEscape(Kept(text, maximum), 0, maximum) {
      SecondPassWithACrossingEscape(text, maximum);
    } else {
      SecondPassWithoutACrossingEscape(text, maximum);
    }
  }

  /** One control byte at limit 1: its escape is cut by the second pass. */
  lemma SanitizingTwiceCanDiffer()
    ensures Sanitized(Sanitized("\n", 1), 1) != Sanitized("\n", 1)
  {
    var piece := Piece(1, HexEscape('\n'));
    assert NextPiece("\n") == piece;
    assert Pieces("\n") == [piece] + Pieces("");
    assert Fitting(Pieces("\n"), 0, 1) == [piece] + Fitting(Pieces(""), 4, 1);
    SanitizingTwiceExactly("\n", 1);
  }

  // ----- Painted values -----------------------------------------------------------------

  function Sgr(code: string): string {
    [ESC, '['] + code + "m"
  }

  /** What `paint` returns for `text`, in colour or not. */
  function Painted(color: bool, code: string, text: string): string {
    var safe := Sanitized(text, DEFAULT_MAXIMUM_BYTES);
    if color then Sgr(code) + safe + Sgr("0") else safe
  }

  lemma SafeTextAppend(left: string, right: string)
    requires SafeText(left) && SafeText(right)
    ensures SafeText(left + right)
  {
    var a :| SafeUnits(a) && left == Flatten(a);
    var b :| SafeUnits(b) && right == Flatten(b);
    FlattenAppend(a, b);
    assert SafeUnits(a + b);
  }

  lemma SgrIsSafe(code: string)
    requires forall k :: 0 <= k < |code| ==> SgrParameter(code[k])
    ensures SafeText(Sgr(code))
  {
    assert IsSgr(Sgr(code));
    assert Flatten([Sgr(code)]) == Sgr(code) + Flatten<char>([]);
    assert SafeUnits([Sgr(code)]);
  }

  lemma PrefixBehind(first: string, rest: string, all: string)
    requires rest <= all
    ensures first + rest <= first + all
  {
  }

  /** A last unit that starts beyond the limit is not shown: the mark stands in its place, or in an earlier one. */
  lemma {:induction false} UnitsBeyondAreCut(units: seq<string>, last: string, used: nat, maximum: nat) returns (shown: string)
    requires used + |Flatten(units)| >= maximum
    ensures shown <= Flatten(units)
    ensures ShownUpTo(Verbatim(units + [last]), used, maximum) == shown + TRUNCATION_MARK
  {
    var pieces := Verbatim(units + [last]);
    if used >= maximum {
      shown := [];
    } else {
      var first, later := units[0], units[1..];
      var rest := UnitsBeyondAreCut(later, last, used + |first|, maximum);
      assert pieces[1..] == Verbatim(later + [last]);
      shown := first + rest;
      PrefixBehind(first, rest, Flatten(later));
      ConcatAssociative(first, rest, TRUNCATION_MARK);
    }
  }

  lemma DifferentEnds(a: string, x: string, b: string, y: string)
    requires x != [] && y != [] && x[|x| - 1] != y[|y| - 1]
    ensures a + x != b + y
  {
    assert (a + x)[|a + x| - 1] == x[|x| - 1];
    assert (b + y)[|b + y| - 1] == y[|y| - 1];
  }

  /** Safe text that ends with one more safe unit is read as such. */
  lemma ReadWithLast(units: seq<string>, last: string)
    requires SafeUnits(units) && SafeUnit(last)
    ensures Pieces(Flatten(units) + last) == Verbatim(units + [last])
  {
    var all := units + [last];
    FlattenSnoc(units, last);
    forall k | 0 <= k < |all| ensures SafeUnit(all[k]) {
      assert k < |units| ==> all[k] == units[k];
    }
    SafeTextIsRead(all);
  }

  lemma LastUnitIsShown(units: seq<string>, last: string, maximum: nat)
    requires SafeUnits(units) && |Flatten(units)| < maximum
    ensures ShownUpTo(Verbatim(units + [last]), 0, maximum) == Flatten(units) + last
  {
    var one := Verbatim([last]);
    assert one[0].shown == last && one[1..] == [];
    NonemptyUnitsStartBelow(units, 0, maximum);
    UnitsBelowTheLimitAreShown(units, [last], 0, maximum);
  }

  /** Safe text and the reset: unchanged exactly if the reset starts below the limit, and cut otherwise. */
  lemma ResetDecides(s: string, reset: string, maximum: nat)
    requires SafeText(s) && SafeUnit(reset) && reset != [] && reset[|reset| - 1] == 'm'
    ensures Sanitized(s + reset, maximum) == s + reset <==> |s| < maximum
    ensures |s| >= maximum ==> exists shown :: shown <= s && Sanitized(s + reset, maximum) == shown + TRUNCATION_MARK
  {
    var units :| SafeUnits(units) && s == Flatten(units);
    ReadWithLast(units, reset);
    if |s| < maximum {
      LastUnitIsShown(units, reset, maximum);
    } else {
      var shown := UnitsBeyondAreCut(units, reset, 0, maximum);
      DifferentEnds(shown, TRUNCATION_MARK, s, reset);
    }
  }

  /**
   `key_value` sanitizes its value again. In colour a painted value passes unchanged exactly if what precedes the
   final reset is shorter than the limit, and otherwise the reset is cut off; without colour it passes unchanged
   exactly if no escape crosses the limit.
   */
  lemma PaintedValueIsListedExactly(color: bool, code: string, text: string)
    requires forall k :: 0 <= k < |code| ==> SgrParameter(code[k])
    ensures var painted, safe := Painted(color, code, text), Sanitized(text, 4096);
            && (Sanitized(painted, 4096) == painted <==>
                if color then |Sgr(code)| + |safe| < 4096
                else !EndsInCrossingEscape(Kept(text, 4096), 0, 4096))
            && (color && |Sgr(code)| + |safe| >= 4096 ==>
                exists shown :: shown <= Sgr(code) + safe
                                && Sanitized(painted, 4096) == shown + "...[truncated]")
  {
    var safe := Sanitized(text, DEFAULT_MAXIMUM_BYTES);
    if color {
      OutputIsSafe(text, DEFAULT_MAXIMUM_BYTES);
      SgrIsSafe(code);
      SafeTextAppend(Sgr(code), safe);
      assert IsSgr(Sgr("0"));
      ResetDecides(Sgr(code) + safe, Sgr("0"), DEFAULT_MAXIMUM_BYTES);
    } else {
      SanitizingTwiceExactly(text, DEFAULT_MAXIMUM_BYTES);
    }
  }
}
