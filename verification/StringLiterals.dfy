/** A reader of C++ string literals (sections 2.14.3, 2.14.5 and 2.2 of ISO/IEC 14882:2011):
    greedy escape sequences, and concatenation of adjacent literals. */
module LiteralReader {
  import opened Options
  import opened Bytes

  /** How many hexadecimal digits `t` starts with. */
  function HexRun(t: string): (n: nat)
    ensures n <= |t| && forall i :: 0 <= i < n ==> IsHexDigit(t[i])
    ensures n < |t| ==> !IsHexDigit(t[n])
  {
    if t == "" || !IsHexDigit(t[0]) then 0 else 1 + HexRun(t[1..])
  }

  /** How many octal digits, up to `limit`, `t` starts with. */
  function OctRun(t: string, limit: nat): (n: nat)
    ensures n <= limit && n <= |t| && forall i :: 0 <= i < n ==> IsOctDigit(t[i])
    ensures n < limit && n < |t| ==> !IsOctDigit(t[n])
  {
    if limit == 0 || t == "" || !IsOctDigit(t[0]) then 0 else 1 + OctRun(t[1..], limit - 1)
  }

  function SimpleEscape(c: char): Option<Byte> {
    match c
    case '\'' => Some(0x27)
    case '"' => Some(0x22)
    case '?' => Some(0x3F)
    case '\\' => Some(0x5C)
    case 'a' => Some(0x07)
    case 'b' => Some(0x08)
    case 'f' => Some(0x0C)
    case 'n' => Some(0x0A)
    case 'r' => Some(0x0D)
    case 't' => Some(0x09)
    case 'v' => Some(0x0B)
    case _ => None
  }

  function Prepend(v: nat, rest: Option<seq<Byte>>): Option<seq<Byte>> {
    if rest.Some? && v < 256 then Some([v] + rest.value) else None
  }

  /** Reads on inside a literal, up to the end of the last of the adjacent literals. */
  function ReadInside(t: string): Option<seq<Byte>>
    decreases |t|
  {
    if t == "" || t[0] == '\n' then None
    else if t[0] == '"' then ReadBetween(t[1..])
    else if t[0] != '\\' then Prepend(t[0] as int, ReadInside(t[1..]))
    else if |t| == 1 then None
    else if IsOctDigit(t[1]) then
      var n := OctRun(t[1..], 3);
      Prepend(Number(t[1..], n, 8), ReadInside(t[1 + n..]))
    else if t[1] == 'x' then
      var n := HexRun(t[2..]);
      if n == 0 then None else Prepend(Number(t[2..], n, 16), ReadInside(t[2 + n..]))
    else if SimpleEscape(t[1]).Some? then Prepend(SimpleEscape(t[1]).value, ReadInside(t[2..]))
    else None
  }

  /** Skips blanks to the next literal or the end. */
  function ReadBetween(t: string): Option<seq<Byte>>
    decreases |t|
  {
    if t == "" then Some([])
    else if t[0] == ' ' then ReadBetween(t[1..])
    else if t[0] == '"' then ReadInside(t[1..])
    else None
  }

  function ReadLiterals(t: string): Option<seq<Byte>> {
    if t != "" && t[0] == '"' then ReadInside(t[1..]) else None
  }
}

/** Google Test's printer of narrow strings as C++ string literals. */
module StringLiterals {
  import opened Options
  import opened Bytes
  import opened LiteralReader

  datatype CharFormat = AsIs | HexEscape | SpecialEscape

  predicate IsPrintableAscii(c: Byte) { 0x20 <= c <= 0x7E }

  predicate IsXDigit(c: Byte) { c < 0x80 && IsHexDigit(c as char) }

  function CharLiteral(c: Byte): (string, CharFormat) {
    match c
    case 0x00 => ("\\0", SpecialEscape)
    case 0x27 => ("\\'", SpecialEscape)
    case 0x5C => ("\\\\", SpecialEscape)
    case 0x07 => ("\\a", SpecialEscape)
    case 0x08 => ("\\b", SpecialEscape)
    case 0x0C => ("\\f", SpecialEscape)
    case 0x0A => ("\\n", SpecialEscape)
    case 0x0D => ("\\r", SpecialEscape)
    case 0x09 => ("\\t", SpecialEscape)
    case 0x0B => ("\\v", SpecialEscape)
    case _ => if IsPrintableAscii(c) then ([c as char], AsIs) else ("\\x" + FormatHexInt(c), HexEscape)
  }

  /** How a character is written within a string literal: quotes change sides. */
  function StringLiteral(c: Byte): (string, CharFormat) {
    match c
    case 0x27 => ("'", AsIs)
    case 0x22 => ("\\\"", SpecialEscape)
    case _ => CharLiteral(c)
  }

  /** What is printed for `s` inside the quotes, given whether a hex escape came just before. */
  ghost function Body(s: seq<Byte>, isPreviousHex: bool): string {
    if s == [] then ""
    else
      (if isPreviousHex && IsXDigit(s[0]) then "\" \"" else "")
      + StringLiteral(s[0]).0 + Body(s[1..], StringLiteral(s[0]).1 == HexEscape)
  }

  ghost function Printed(s: seq<Byte>): string { "\"" + Body(s, false) + "\"" }

  // The printed form by the numbers of its characters.

  /** Neither printable nor written with a simple escape or as NUL. */
  ghost predicate NeedsHexEscape(c: Byte) {
    (c < 0x20 || 0x7E < c) && c != 0 && !(7 <= c <= 13)
  }

  /** The one way to write `c`: as itself if it is printable and no quote or backslash, with the
      escape that a reader knows for it, or in upper-case hexadecimal without leading zeros. */
  ghost predicate IsToken(c: Byte, text: string) {
    if NeedsHexEscape(c) then
      && 3 <= |text| <= 4 && text[0] == '\\' && text[1] == 'x' && text[2] != '0'
      && (forall i :: 2 <= i < |text| ==> 48 <= text[i] as int <= 57 || 65 <= text[i] as int <= 70)
      && c == if |text| == 3 then DigitValue(text[2]) else 16 * DigitValue(text[2]) + DigitValue(text[3])
    else if c == 0 then text == "\\0"
    else if 7 <= c <= 13 || c == 0x22 || c == 0x5C then
      |text| == 2 && text[0] == '\\' && SimpleEscape(text[1]) == Some(c)
    else text == [c as char]
  }

  /** The tokens in a row; a literal ends and the next begins exactly between a hex escape and a
      hexadecimal digit. */
  ghost function Joined(s: seq<Byte>, tokens: seq<string>, afterHex: bool): string
    requires |tokens| == |s|
  {
    if s == [] then "" else
      var isDigit := 48 <= s[0] <= 57 || 65 <= s[0] <= 70 || 97 <= s[0] <= 102;
      (if afterHex && isDigit then "\" \"" else "") + tokens[0] + Joined(s[1..], tokens[1..], NeedsHexEscape(s[0]))
  }

  ghost predicate AreTokens(s: seq<Byte>, tokens: seq<string>) {
    |tokens| == |s| && forall i :: 0 <= i < |s| ==> IsToken(s[i], tokens[i])
  }

  lemma HexEscapeIsToken(c: Byte)
    requires NeedsHexEscape(c)
    ensures IsToken(c, "\\x" + FormatHexInt(c))
  {
    var digits := FormatHexInt(c);
    assert if c < 16 then digits == [HexDigit(c)] else digits == [HexDigit(c / 16)] + [HexDigit(c % 16)];
  }

  /** How a character is printed, without asking the printer. */
  lemma CharacterIsToken(c: Byte)
    ensures IsToken(c, StringLiteral(c).0)
    ensures StringLiteral(c).1 == HexEscape <==> NeedsHexEscape(c)
    ensures IsXDigit(c) <==> 48 <= c <= 57 || 65 <= c <= 70 || 97 <= c <= 102
  {
    if NeedsHexEscape(c) {
      HexEscapeIsToken(c);
      hide FormatHexInt, IsToken;
      assert StringLiteral(c).0 == "\\x" + FormatHexInt(c);
    }
  }

  /** A byte has one token, and it consists of printable characters. */
  lemma TokensAreUnique(c: Byte, text: string, other: string)
    requires IsToken(c, text) && IsToken(c, other)
    ensures text == other
    ensures forall i :: 0 <= i < |text| ==> 0x20 <= text[i] as int <= 0x7E
  {
  }

  lemma {:induction false} BodyInTokens(s: seq<Byte>, isPreviousHex: bool) returns (tokens: seq<string>)
    ensures AreTokens(s, tokens) && Body(s, isPreviousHex) == Joined(s, tokens, isPreviousHex)
    ensures forall i :: 0 <= i < |Body(s, isPreviousHex)| ==> 0x20 <= Body(s, isPreviousHex)[i] as int <= 0x7E
    decreases |s|
  {
    hide StringLiteral, IsToken, IsXDigit, NeedsHexEscape;
    tokens := [];
    if s != [] {
      var text := StringLiteral(s[0]).0;
      CharacterIsToken(s[0]);
      TokensAreUnique(s[0], text, text);
      var rest := BodyInTokens(s[1..], StringLiteral(s[0]).1 == HexEscape);
      tokens := [text] + rest;
    }
  }

  /** What is printed for any string: a quote, its tokens, and a quote, in printable characters
      throughout. */
  lemma PrintedInTokens(s: seq<Byte>) returns (tokens: seq<string>)
    ensures AreTokens(s, tokens) && Printed(s) == "\"" + Joined(s, tokens, false) + "\""
    ensures forall i :: 0 <= i < |Printed(s)| ==> 0x20 <= Printed(s)[i] as int <= 0x7E
  {
    hide Body, Joined;
    tokens := BodyInTokens(s, false);
  }

  // The loop.

  /** Printing one character leaves the rest to be printed. */
  lemma BodyStep(s: seq<Byte>, index: nat, isPreviousHex: bool, before: string, after: string)
    requires index < |s|
    requires after == before + (if isPreviousHex && IsXDigit(s[index]) then "\" \"" else "") + StringLiteral(s[index]).0
    ensures before + Body(s[index..], isPreviousHex)
         == after + Body(s[index + 1..], StringLiteral(s[index]).1 == HexEscape)
  {
    hide StringLiteral;
    assert s[index..][0] == s[index] && s[index..][1..] == s[index + 1..];
  }

  method PrintCharsAsStringTo(begin: seq<Byte>, os: string) returns (stream: string)
    ensures stream == os + Printed(begin)
    ensures exists tokens :: AreTokens(begin, tokens) && stream == os + ("\"" + Joined(begin, tokens, false) + "\"")
    ensures forall i :: |os| <= i < |stream| ==> 0x20 <= stream[i] as int <= 0x7E
  {
    hide StringLiteral, IsXDigit, IsToken, AreTokens, Joined;
    ghost var tokens := PrintedInTokens(begin);
    stream := os + "\"";
    assert forall isPreviousHex :: Body([], isPreviousHex) == "";
    hide Body;
    var isPreviousHex := false;
    for index := 0 to |begin|
      invariant stream + Body(begin[index..], isPreviousHex) == os + "\"" + Body(begin, false)
    {
      ghost var before := stream;
      var cur := begin[index];
      if isPreviousHex && IsXDigit(cur) {
        stream := stream + "\" \"";
      }
      var (text, format) := StringLiteral(cur);
      stream := stream + text;
      BodyStep(begin, index, isPreviousHex, before, stream);
      isPreviousHex := format == HexEscape;
    }
    assert begin[|begin|..] == [] && stream + "" == stream;
    assert stream + "\"" == os + Printed(begin);
    stream := stream + "\"";
  }

  // Reading back.

  predicate IsOctByte(b: Byte) { 0x30 <= b <= 0x37 }

  /** How many octal digits, up to `limit`, come first. */
  function OctBytes(s: seq<Byte>, limit: nat): (n: nat)
    ensures n <= limit && n <= |s| && forall i :: 0 <= i < n ==> IsOctByte(s[i])
  {
    if limit == 0 || s == [] || !IsOctByte(s[0]) then 0 else 1 + OctBytes(s[1..], limit - 1)
  }

  /** What a reader makes of the printed string: a NUL swallows up to two octal digits after it,
      and becomes the character with that number. Nothing else changes. */
  function Misread(s: seq<Byte>): seq<Byte>
    decreases |s|
  {
    if s == [] then []
    else if s[0] != 0 then [s[0]] + Misread(s[1..])
    else
      var n := OctBytes(s[1..], 2);
      [SwallowedValue(s[1..], n)] + Misread(s[1 + n..])
  }

  /** The value of up to two octal digits. */
  function SwallowedValue(digits: seq<Byte>, n: nat): Byte
    requires n <= 2 && n <= |digits| && forall i :: 0 <= i < n ==> IsOctByte(digits[i])
  {
    if n == 0 then 0
    else
      assert IsOctByte(digits[0]);
      if n == 1 then digits[0] - 0x30
      else
        assert IsOctByte(digits[1]);
        (digits[0] - 0x30) * 8 + digits[1] - 0x30
  }

  ghost predicate NulBeforeOctDigit(s: seq<Byte>) {
    exists i :: 0 <= i < |s| - 1 && s[i] == 0 && IsOctByte(s[i + 1])
  }

  lemma BodyUnfolds(s: seq<Byte>, isPreviousHex: bool)
    requires s != []
    ensures Body(s, isPreviousHex)
         == (if isPreviousHex && IsXDigit(s[0]) then "\" \"" else "")
            + StringLiteral(s[0]).0 + Body(s[1..], StringLiteral(s[0]).1 == HexEscape)
  {
  }

  lemma OctByteIsPrintedAsIs(c: Byte)
    requires IsOctByte(c)
    ensures StringLiteral(c) == ([c as char], AsIs)
  {
  }

  /** The text goes on with a hexadecimal digit only for such a digit, and not after a hex escape. */
  lemma BodyStart(s: seq<Byte>, isPreviousHex: bool, tail: string)
    requires tail != "" && !IsHexDigit(tail[0])
    ensures var t := Body(s, isPreviousHex) + tail;
            && t != "" && (isPreviousHex ==> !IsHexDigit(t[0]))
            && (IsOctDigit(t[0]) ==> s != [] && IsOctByte(s[0]))
  {
  }

  lemma OctRunOfCons(c: char, rest: string, limit: nat)
    requires limit > 0 && IsOctDigit(c)
    ensures OctRun([c] + rest, limit) == 1 + OctRun(rest, limit - 1)
  {
    assert ([c] + rest)[1..] == rest;
  }

  /** Octal digits after a NUL are printed as they are. */
  lemma {:induction false} BodyStartsWithOctBytes(s: seq<Byte>, limit: nat, tail: string)
    requires tail != "" && !IsHexDigit(tail[0])
    ensures var t := Body(s, false) + tail;
            var n := OctBytes(s, limit);
            && OctRun(t, limit) == n
            && n <= |t| && t[n..] == Body(s[n..], false) + tail
            && (forall i :: 0 <= i < n ==> t[i] as int == s[i] && IsOctByte(s[i]))
    decreases |s|
  {
    var t := Body(s, false) + tail;
    var n := OctBytes(s, limit);
    hide StringLiteral, Body;
    BodyStart(s, false, tail);
    if n > 0 {
      BodyUnfolds(s, false);
      OctByteIsPrintedAsIs(s[0]);
      BodyStartsWithOctBytes(s[1..], limit - 1, tail);
      var rest := Body(s[1..], false) + tail;
      assert t == [s[0] as char] + rest;
      OctRunOfCons(s[0] as char, rest, limit);
      hide OctRun, OctBytes;
      assert t[1..] == rest && t[n..] == rest[n - 1..];
      assert s[1..][n - 1..] == s[n..];
    } else {
      assert s[0..] == s;
    }
  }

  // One token at a time.

  lemma ReadPlain(t: string)
    requires t != "" && t[0] != '\n' && t[0] != '"' && t[0] != '\\'
    ensures ReadInside(t) == Prepend(t[0] as int, ReadInside(t[1..]))
  {
  }

  lemma ReadSimpleEscape(t: string)
    requires |t| >= 2 && t[0] == '\\' && !IsOctDigit(t[1]) && t[1] != 'x' && SimpleEscape(t[1]).Some?
    ensures ReadInside(t) == Prepend(SimpleEscape(t[1]).value, ReadInside(t[2..]))
  {
  }

  lemma ReadHexEscape(t: string)
    requires |t| >= 2 && t[0] == '\\' && t[1] == 'x' && HexRun(t[2..]) > 0
    ensures ReadInside(t) == Prepend(Number(t[2..], HexRun(t[2..]), 16), ReadInside(t[2 + HexRun(t[2..])..]))
  {
  }

  lemma ReadOctEscape(t: string)
    requires |t| >= 2 && t[0] == '\\' && IsOctDigit(t[1])
    ensures ReadInside(t) == Prepend(Number(t[1..], OctRun(t[1..], 3), 8), ReadInside(t[1 + OctRun(t[1..], 3)..]))
  {
  }

  lemma {:induction false} HexRunEnds(digits: string, rest: string)
    requires forall i :: 0 <= i < |digits| ==> IsHexDigit(digits[i])
    requires rest == "" || !IsHexDigit(rest[0])
    ensures HexRun(digits + rest) == |digits|
    decreases |digits|
  {
    if digits == "" {
      assert digits + rest == rest;
    } else {
      HexRunEnds(digits[1..], rest);
      assert (digits + rest)[1..] == digits[1..] + rest;
    }
  }

  /** The printed number is the number. */
  lemma FormatHexIntIsExact(c: Byte, rest: string)
    ensures var digits := FormatHexInt(c);
            && 1 <= |digits| <= 2 && (forall i :: 0 <= i < |digits| ==> IsHexDigit(digits[i]))
            && (forall i :: 0 <= i < |digits| ==> (digits + rest)[i] == digits[i])
            && Number(digits + rest, |digits|, 16) == c
  {
    var digits := FormatHexInt(c);
    var t := digits + rest;
    assert Number(t, 1, 16) == DigitValue(digits[0]);
    if c >= 16 {
      assert Number(t, 2, 16) == Number(t, 1, 16) * 16 + DigitValue(digits[1]);
    }
  }

  /** The three ways in which a character other than NUL is written. */
  lemma StringLiteralShape(c: Byte)
    requires c != 0
    ensures var (text, format) := StringLiteral(c);
            match format
            case AsIs => text == [c as char] && c >= 0x20 && c != 0x22 && c != 0x5C
            case SpecialEscape =>
              && |text| == 2 && text[0] == '\\' && !IsOctDigit(text[1]) && text[1] != 'x'
              && SimpleEscape(text[1]) == Some(c)
            case HexEscape => text == "\\x" + FormatHexInt(c)
  {
  }

  /** Every character other than NUL is read back from the way it is printed. */
  lemma ReadCharacter(c: Byte, rest: string)
    requires c != 0
    requires StringLiteral(c).1 == HexEscape ==> rest != "" && !IsHexDigit(rest[0])
    ensures ReadInside(StringLiteral(c).0 + rest) == Prepend(c, ReadInside(rest))
  {
    hide ReadInside, StringLiteral, SimpleEscape, Number, HexRun, FormatHexInt;
    StringLiteralShape(c);
    var (text, format) := StringLiteral(c);
    var t := text + rest;
    match format {
      case AsIs =>
        ReadPlain(t);
        assert t[1..] == rest;
      case SpecialEscape =>
        ReadSimpleEscape(t);
        assert t[2..] == rest;
      case HexEscape => ReadHexCharacter(c, rest);
    }
  }

  lemma ReadHexCharacter(c: Byte, rest: string)
    requires rest != "" && !IsHexDigit(rest[0])
    ensures ReadInside("\\x" + FormatHexInt(c) + rest) == Prepend(c, ReadInside(rest))
  {
    hide ReadInside, Number, HexRun, FormatHexInt;
    var digits := FormatHexInt(c);
    var t := "\\x" + digits + rest;
    FormatHexIntIsExact(c, rest);
    HexRunEnds(digits, rest);
    assert t[2..] == digits + rest && t[2 + |digits|..] == rest;
    ReadHexEscape(t);
  }

  /** A NUL is read together with the octal digits after it. */
  lemma ReadNul(rest: string)
    ensures var n := OctRun(rest, 2);
            ReadInside("\\0" + rest) == Prepend(Number(rest, n, 8), ReadInside(rest[n..]))
  {
    hide ReadInside;
    var t := "\\0" + rest;
    var n := OctRun(rest, 2);
    assert t[1..] == "0" + rest && t[1..][1..] == rest && t[2 + n..] == rest[n..];
    assert OctRun(t[1..], 3) == 1 + n;
    hide OctRun;
    NumberAfterZero(t[1..], rest, n);
    ReadOctEscape(t);
  }

  lemma {:induction false} NumberAfterZero(t: string, rest: string, n: nat)
    requires t == "0" + rest && n <= |rest| && forall i :: 0 <= i < n ==> IsHexDigit(rest[i])
    ensures (forall i :: 0 <= i < 1 + n ==> IsHexDigit(t[i])) && Number(t, 1 + n, 8) == Number(rest, n, 8)
    decreases n
  {
    assert forall i :: 0 < i < 1 + n ==> t[i] == rest[i - 1];
    if n > 0 {
      NumberAfterZero(t, rest, n - 1);
    }
  }

  lemma ReadBreak(rest: string)
    ensures ReadInside("\" \"" + rest) == ReadInside(rest)
  {
    var t := "\" \"" + rest;
    assert t[1..][1..] == "\"" + rest && t[1..][1..][1..] == rest;
    assert ReadBetween(t[1..]) == ReadBetween(t[1..][1..]);
  }

  lemma ReadEmptyBody(isPreviousHex: bool)
    ensures ReadInside(Body([], isPreviousHex) + "\"") == Some([])
  {
    assert Body([], isPreviousHex) + "\"" == "\"";
    assert ReadBetween("") == Some([]);
  }

  /** The value that Misread gives to a NUL is the number that the reader reads. */
  lemma MisreadNul(s: seq<Byte>, rest: string, n: nat)
    requires s != [] && s[0] == 0 && n == OctBytes(s[1..], 2) <= |rest|
    requires forall i :: 0 <= i < n ==> IsOctByte(s[1..][i]) && IsOctDigit(rest[i]) && rest[i] as int == s[1..][i]
    ensures Misread(s) == [Number(rest, n, 8)] + Misread(s[1 + n..])
    ensures Number(rest, n, 8) < 256
  {
    MisreadUnfolds(s);
    hide Misread, OctBytes, SwallowedValue, Number;
    NumberIsSwallowedValue(rest, s[1..], n);
  }

  lemma MisreadUnfolds(s: seq<Byte>)
    requires s != [] && s[0] == 0
    ensures var n := OctBytes(s[1..], 2);
            Misread(s) == [SwallowedValue(s[1..], n)] + Misread(s[1 + n..])
  {
    hide OctBytes, SwallowedValue;
  }

  lemma NumberIsSwallowedValue(t: string, digits: seq<Byte>, n: nat)
    requires n <= 2 && n <= |digits| && n <= |t|
    requires forall i :: 0 <= i < n ==> IsOctByte(digits[i]) && IsOctDigit(t[i]) && t[i] as int == digits[i]
    ensures (forall i :: 0 <= i < n ==> IsHexDigit(t[i])) && Number(t, n, 8) == SwallowedValue(digits, n)
  {
    if n > 0 {
      assert Number(t, 1, 8) == DigitValue(t[0]) == digits[0] - 0x30;
    }
    if n > 1 {
      assert Number(t, 2, 8) == Number(t, 1, 8) * 8 + DigitValue(t[1]);
    }
  }

  lemma ReadBodyBreak(s: seq<Byte>)
    requires s != [] && IsXDigit(s[0])
    ensures ReadInside(Body(s, true) + "\"") == ReadInside(Body(s, false) + "\"")
  {
    hide ReadInside, StringLiteral;
    BodyUnfolds(s, true);
    BodyUnfolds(s, false);
    assert Body(s, true) + "\"" == "\" \"" + (Body(s, false) + "\"");
    ReadBreak(Body(s, false) + "\"");
  }

  lemma ReadBodyCharacter(s: seq<Byte>, isPreviousHex: bool)
    requires s != [] && s[0] != 0 && !(isPreviousHex && IsXDigit(s[0]))
    ensures ReadInside(Body(s, isPreviousHex) + "\"")
         == Prepend(s[0], ReadInside(Body(s[1..], StringLiteral(s[0]).1 == HexEscape) + "\""))
  {
    hide ReadInside, StringLiteral, Body;
    var hex := StringLiteral(s[0]).1 == HexEscape;
    var rest := Body(s[1..], hex) + "\"";
    BodyUnfolds(s, isPreviousHex);
    assert Body(s, isPreviousHex) + "\"" == StringLiteral(s[0]).0 + rest;
    BodyStart(s[1..], hex, "\"");
    ReadCharacter(s[0], rest);
  }

  lemma ReadBodyNul(s: seq<Byte>, isPreviousHex: bool)
    requires s != [] && s[0] == 0
    ensures var n := OctBytes(s[1..], 2);
            var next := ReadInside(Body(s[1 + n..], false) + "\"");
            next == Some(Misread(s[1 + n..])) ==> ReadInside(Body(s, isPreviousHex) + "\"") == Some(Misread(s))
  {
    hide ReadInside, Body, Misread, OctBytes, OctRun, Number;
    var n := OctBytes(s[1..], 2);
    var rest := Body(s[1..], false) + "\"";
    BodyUnfolds(s, isPreviousHex);
    assert Body(s, isPreviousHex) + "\"" == "\\0" + rest;
    ReadNul(rest);
    BodyStartsWithOctBytes(s[1..], 2, "\"");
    assert s[1..][n..] == s[1 + n..];
    MisreadNul(s, rest, n);
  }

  /** What the printer writes, for any string, is misread in the way described. */
  lemma {:induction false} ReadBody(s: seq<Byte>, isPreviousHex: bool)
    ensures ReadInside(Body(s, isPreviousHex) + "\"") == Some(Misread(s))
    decreases |s|, isPreviousHex
  {
    hide ReadInside, Body, StringLiteral;
    if s == [] {
      ReadEmptyBody(isPreviousHex);
    } else if isPreviousHex && IsXDigit(s[0]) {
      ReadBodyBreak(s);
      ReadBody(s, false);
    } else if s[0] != 0 {
      ReadBodyCharacter(s, isPreviousHex);
      ReadBody(s[1..], StringLiteral(s[0]).1 == HexEscape);
    } else {
      ReadBodyNul(s, isPreviousHex);
      ReadBody(s[1 + OctBytes(s[1..], 2)..], false);
    }
  }

  // The round trip, and exactly when it holds.

  lemma {:induction false} MisreadIsNoLonger(s: seq<Byte>)
    ensures |Misread(s)| <= |s|
    ensures NulBeforeOctDigit(s) ==> |Misread(s)| < |s|
    ensures !NulBeforeOctDigit(s) ==> Misread(s) == s
    decreases |s|
  {
    if s != [] {
      var n := if s[0] == 0 then OctBytes(s[1..], 2) else 0;
      MisreadIsNoLonger(s[1 + n..]);
      if i :| 0 <= i < |s| - 1 && s[i] == 0 && IsOctByte(s[i + 1]) {
        if i > 0 && n == 0 {
          assert s[1..][i - 1] == 0 && IsOctByte(s[1..][i]);
        } else if i == 0 {
          assert s[1..][0] == s[1];
        }
      } else if n > 0 {
        assert s[1..][0] == s[1];
      }
    }
  }

  /** The printed literal reads back as the string exactly if no NUL comes before an octal digit. */
  lemma RoundTripExactly(s: seq<Byte>)
    ensures ReadLiterals(Printed(s)) == Some(s) <==> !NulBeforeOctDigit(s)
  {
    ReadBody(s, false);
    MisreadIsNoLonger(s);
    assert Printed(s)[1..] == Body(s, false) + "\"";
  }
}
