/** What an XML 1.0 processor makes of character data, of CDATA sections and of attribute values. */
module XmlReader {
  import opened Options
  import opened Bytes

  predicate StartsWith(t: string, prefix: string) { |t| >= |prefix| && t[..|prefix|] == prefix }

  /** Char (section 2.2): no control characters but tab, line feed and carriage return, and neither
      U+FFFE nor U+FFFF. */
  predicate IsChar(c: char) {
    c as int in {0x9, 0xA, 0xD} || (0x20 <= c as int && c as int !in {0xFFFE, 0xFFFF})
  }

  ghost predicate AllChars(s: string) {
    forall i :: 0 <= i < |s| ==> IsChar(s[i])
  }

  /** The three characters that end a CDATA section. */
  predicate AtEnd(t: string) { |t| >= 3 && t[0] == ']' && t[1] == ']' && t[2] == '>' }

  function Prepend(c: char, rest: Option<string>): Option<string> {
    if rest.Some? then Some([c] + rest.value) else None
  }

  /** The predefined entities (section 4.6): the character, and the length of the reference. */
  function Entity(t: string): (entity: Option<(char, nat)>)
    ensures entity.Some? ==> 0 < entity.value.1 <= |t|
  {
    if StartsWith(t, "&lt;") then Some(('<', 4))
    else if StartsWith(t, "&gt;") then Some(('>', 4))
    else if StartsWith(t, "&amp;") then Some(('&', 5))
    else if StartsWith(t, "&apos;") then Some(('\'', 6))
    else if StartsWith(t, "&quot;") then Some(('"', 6))
    else None
  }

  /** A character reference of two hexadecimal digits (section 4.1). */
  function CharacterReference(t: string): (c: Option<char>)
    ensures c.Some? ==> |t| >= 6
  {
    if StartsWith(t, "&#x") && |t| >= 6 && t[5] == ';' && IsHexDigit(t[3]) && IsHexDigit(t[4]) then
      var v := DigitValue(t[3]) * 16 + DigitValue(t[4]);
      if v < 0x100 && IsChar(v as char) then Some(v as char) else None
    else None
  }

  /** Content (sections 2.4 and 2.7): characters, references to entities, CDATA sections. The
      string that ends a section must not appear outside one. */
  function ReadContent(t: string): Option<string>
    decreases |t|
  {
    if t == "" then Some("")
    else if t[0] == '<' then
      if StartsWith(t, "<![CDATA[") then ReadSection(t[9..]) else None
    else if t[0] == '&' then
      match Entity(t)
      case None => None
      case Some((c, n)) => Prepend(c, ReadContent(t[n..]))
    else if AtEnd(t) || !IsChar(t[0]) then None
    else Prepend(t[0], ReadContent(t[1..]))
  }

  /** Inside a CDATA section nothing is markup but its end. */
  function ReadSection(t: string): Option<string>
    decreases |t|
  {
    if t == "" then None
    else if AtEnd(t) then ReadContent(t[3..])
    else if !IsChar(t[0]) then None
    else Prepend(t[0], ReadSection(t[1..]))
  }

  predicate IsWhitespace(c: char) { c == ' ' || c == '\t' || c == '\n' || c == '\r' }

  /** An attribute value between double quotes, normalised (section 3.3.3): white space becomes
      a space, unless it is written as a reference. */
  function ReadAttribute(t: string): Option<string>
    decreases |t|
  {
    if t == "" then Some("")
    else if t[0] == '&' then
      if CharacterReference(t).Some? then Prepend(CharacterReference(t).value, ReadAttribute(t[6..]))
      else
        match Entity(t)
        case None => None
        case Some((c, n)) => Prepend(c, ReadAttribute(t[n..]))
    else if t[0] == '<' || t[0] == '"' || !IsChar(t[0]) then None
    else Prepend(if IsWhitespace(t[0]) then ' ' else t[0], ReadAttribute(t[1..]))
  }

  /** End-of-line handling (section 2.11), which comes before everything else. */
  function NormalizeLineEnds(t: string): string {
    if t == "" then ""
    else if t[0] != '\r' then [t[0]] + NormalizeLineEnds(t[1..])
    else if StartsWith(t, "\r\n") then NormalizeLineEnds(t[1..])
    else "\n" + NormalizeLineEnds(t[1..])
  }
}

/** How Google Test's XML report writes text. A string stands for the bytes before the
    terminating NUL, each as the character with that number. */
module XmlEscaping {
  import opened Options
  import opened Bytes
  import opened XmlReader

  const kEnd := "]]>"
  const kEscapedEnd := "]]>]]&gt;<![CDATA["

  /** The end of a section does not occur in the first `n` places of `s`. */
  ghost predicate NoEndBefore(s: string, n: nat)
    requires n <= |s|
  {
    n > 0 ==> !AtEnd(s) && NoEndBefore(s[1..], n - 1)
  }

  /** Where "]]>" first occurs, if it does. */
  function FindEnd(s: string): (index: Option<nat>)
    ensures index.Some? ==> index.value + 3 <= |s| && AtEnd(s[index.value..]) && NoEndBefore(s, index.value)
    ensures index == None ==> NoEndBefore(s, |s|)
  {
    if s == "" then None
    else if AtEnd(s) then Some(0)
    else
      match FindEnd(s[1..])
      case None => None
      case Some(i) =>
        assert s[1..][i..] == s[i + 1..];
        Some(i + 1)
  }

  /** The rest of a section whose data still to be written is `s`. */
  ghost function SectionBody(s: string): string {
    if s == "" then kEnd
    else if AtEnd(s) then kEscapedEnd + SectionBody(s[3..])
    else [s[0]] + SectionBody(s[1..])
  }

  method OutputXmlCDataSection(stream: string, data: string) returns (out: string)
    ensures out == stream + ("<![CDATA[" + SectionBody(data))
  {
    hide AtEnd, SectionBody, NoEndBefore;
    var segment := data;
    out := stream + "<![CDATA[";
    while true
      invariant out + SectionBody(segment) == stream + ("<![CDATA[" + SectionBody(data))
      decreases |segment|
    {
      ghost var before := out;
      var nextSegment := FindEnd(segment);
      if nextSegment.Some? {
        var n := nextSegment.value;
        SectionBodyToEnd(segment, n);
        out := out + segment[..n];
        out := out + kEscapedEnd;
        ThreeParts(before, segment[..n], kEscapedEnd, SectionBody(segment[n + 3..]));
        segment := segment[n + |kEnd|..];
      } else {
        SectionBodyWithoutEnd(segment);
        out := out + segment;
        ThreeParts(before, segment, kEnd, "");
        break;
      }
    }
    out := out + kEnd;
  }

  lemma ThreeParts(before: string, a: string, b: string, c: string)
    ensures before + a + b + c == before + (a + b + c)
    ensures before + a + b == before + (a + b)
  {
  }

  /** At the first end inside the data the section ends, the end is written as text, and another
      section begins. */
  lemma SectionBodyToEnd(s: string, n: nat)
    requires n + 3 <= |s| && NoEndBefore(s, n) && AtEnd(s[n..])
    ensures SectionBody(s) == s[..n] + "]]>]]&gt;<![CDATA[" + SectionBody(s[n + 3..])
  {
    SectionBodySkips(s, n);
    assert s[n..][3..] == s[n + 3..];
  }

  lemma SectionBodyWithoutEnd(s: string)
    requires NoEndBefore(s, |s|)
    ensures SectionBody(s) == s + "]]>"
  {
    SectionBodySkips(s, |s|);
  }

  lemma {:induction false} SectionBodySkips(s: string, n: nat)
    requires n <= |s| && NoEndBefore(s, n)
    ensures SectionBody(s) == s[..n] + SectionBody(s[n..])
    decreases n
  {
    if n > 0 {
      SectionBodySkips(s[1..], n - 1);
      assert s[1..][n - 1..] == s[n..] && s[..n] == [s[0]] + s[1..][..n - 1];
    }
  }

  // Reading back, one token at a time.

  lemma ReadCharacter(t: string)
    requires t != "" && t[0] != '<' && t[0] != '&' && !AtEnd(t) && IsChar(t[0])
    ensures ReadContent(t) == Prepend(t[0], ReadContent(t[1..]))
  {
  }

  lemma ReadGreaterThan(rest: string)
    ensures ReadContent("&gt;" + rest) == Prepend('>', ReadContent(rest))
  {
    var t := "&gt;" + rest;
    assert t[..4] == "&gt;" && t[4..] == rest;
    assert Entity(t) == Some(('>', 4));
  }

  lemma ReadSectionStart(rest: string)
    ensures ReadContent("<![CDATA[" + rest) == ReadSection(rest)
  {
    var t := "<![CDATA[" + rest;
    assert t[..9] == "<![CDATA[" && t[9..] == rest;
  }

  /** The escaped end is read as the three characters, and reading goes on inside a section. */
  lemma ReadEscapedEnd(rest: string)
    ensures ReadSection(kEscapedEnd + rest) == Prepend(']', Prepend(']', Prepend('>', ReadSection(rest))))
  {
    var t := kEscapedEnd + rest;
    var t3 := "&gt;" + ("<![CDATA[" + rest);
    assert t[3..] == "]]" + t3;
    assert ("]]" + t3)[1..] == "]" + t3 && ("]" + t3)[1..] == t3;
    ReadCharacter("]]" + t3);
    ReadCharacter("]" + t3);
    ReadGreaterThan("<![CDATA[" + rest);
    ReadSectionStart(rest);
    hide ReadContent;
    assert ReadSection(t) == ReadContent(t[3..]);
  }

  /** The section reads back as the data, if XML allows its characters; otherwise it is rejected. */
  lemma {:induction false} SectionReadsBack(s: string)
    ensures ReadSection(SectionBody(s)) == if AllChars(s) then Some(s) else None
    decreases |s|
  {
    var t := SectionBody(s);
    if s == "" {
      assert t[3..] == "";
    } else if AtEnd(s) {
      SectionReadsBack(s[3..]);
      hide ReadSection;
      ReadEscapedEnd(SectionBody(s[3..]));
      assert s == [']'] + ([']'] + (['>'] + s[3..]));
      AllCharsOfConcat("]]>", s[3..]);
      assert s == "]]>" + s[3..];
    } else {
      SectionReadsBack(s[1..]);
      assert t[1..] == SectionBody(s[1..]);
      BodyEndsOnlyAtEnd(s);
      assert [s[0]] + s[1..] == s;
      AllCharsOfConcat([s[0]], s[1..]);
    }
  }

  lemma AllCharsOfConcat(a: string, b: string)
    ensures AllChars(a + b) <==> AllChars(a) && AllChars(b)
  {
    assert forall i :: 0 <= i < |a| ==> (a + b)[i] == a[i];
    assert forall i :: 0 <= i < |b| ==> (a + b)[|a| + i] == b[i];
  }

  /** Writing the data does not bring the end of the section forward. */
  lemma BodyEndsOnlyAtEnd(s: string)
    requires s != "" && !AtEnd(s)
    ensures !AtEnd(SectionBody(s))
  {
    var t := SectionBody(s);
    assert t == [s[0]] + SectionBody(s[1..]);
    if |s| >= 2 && !AtEnd(s[1..]) {
      assert SectionBody(s[1..]) == [s[1]] + SectionBody(s[2..]) by { assert s[1..][1..] == s[2..]; }
      if |s| >= 3 && !AtEnd(s[2..]) {
        assert SectionBody(s[2..])[0] == s[2];
      }
    }
  }

  /** So does the whole section. */
  lemma CDataReadsBack(data: string)
    ensures ReadContent("<![CDATA[" + SectionBody(data)) == if AllChars(data) then Some(data) else None
  {
    ReadSectionStart(SectionBody(data));
    SectionReadsBack(data);
  }

  // End-of-line handling.

  ghost predicate HasReturn(s: string) {
    exists i :: 0 <= i < |s| && s[i] == '\r'
  }

  lemma NormalizeUnfolds(s: string)
    requires s != ""
    ensures NormalizeLineEnds(s) ==
            if s[0] != '\r' then [s[0]] + NormalizeLineEnds(s[1..])
            else if |s| >= 2 && s[1] == '\n' then NormalizeLineEnds(s[1..])
            else "\n" + NormalizeLineEnds(s[1..])
  {
    assert StartsWith(s, "\r\n") <==> |s| >= 2 && s[0] == '\r' && s[1] == '\n';
  }

  lemma {:induction false} NormalizeKeepsPrefix(a: string, b: string)
    requires forall i :: 0 <= i < |a| ==> a[i] != '\r'
    ensures NormalizeLineEnds(a + b) == a + NormalizeLineEnds(b)
    decreases |a|
  {
    hide NormalizeLineEnds;
    if a == "" {
      assert a + b == b;
    } else {
      NormalizeKeepsPrefix(a[1..], b);
      assert (a + b)[1..] == a[1..] + b;
      NormalizeUnfolds(a + b);
      assert [a[0]] + a[1..] == a;
    }
  }

  lemma NormalizedStart(s: string)
    requires s != ""
    ensures NormalizeLineEnds(s) != ""
    ensures NormalizeLineEnds(s)[0] == if s[0] == '\r' then '\n' else s[0]
  {
    NormalizeUnfolds(s);
    if |s| >= 2 { NormalizeUnfolds(s[1..]); }
  }

  /** Line ends are no part of the end of a section. */
  lemma NormalizeKeepsEnd(s: string)
    ensures AtEnd(NormalizeLineEnds(s)) <==> AtEnd(s)
  {
    if s != "" {
      NormalizedStart(s);
      NormalizeUnfolds(s);
      if |s| >= 2 {
        NormalizedStart(s[1..]);
        NormalizeUnfolds(s[1..]);
        if |s| >= 3 { NormalizedStart(s[1..][1..]); }
      }
    }
  }

  /** Normalising the written section is writing the normalised data. */
  lemma {:induction false} NormalizeSectionBody(s: string)
    ensures NormalizeLineEnds(SectionBody(s)) == SectionBody(NormalizeLineEnds(s))
    decreases |s|
  {
    NormalizeKeepsEnd(s);
    if s == "" {
      NormalizeKeepsPrefix(kEnd, "");
      assert kEnd + "" == kEnd;
    } else if AtEnd(s) {
      NormalizeSectionBody(s[3..]);
      NormalizeKeepsPrefix(kEscapedEnd, SectionBody(s[3..]));
      assert s == kEnd + s[3..];
      NormalizeKeepsPrefix(kEnd, s[3..]);
      assert NormalizeLineEnds(s)[3..] == NormalizeLineEnds(s[3..]);
    } else {
      var t := SectionBody(s);
      NormalizeSectionBody(s[1..]);
      assert t == [s[0]] + SectionBody(s[1..]) && t[1..] == SectionBody(s[1..]);
      NormalizeUnfolds(s);
      NormalizeUnfolds(t);
      BodyStart(s[1..]);
    }
  }

  lemma BodyStart(s: string)
    ensures SectionBody(s) != "" && SectionBody(s)[0] == if s == "" then ']' else s[0]
  {
  }

  /** A processor that handles line ends, as section 2.11 demands, gets the data with its line
      ends normalised. */
  lemma CDataReadsBackNormalized(data: string)
    ensures ReadContent(NormalizeLineEnds("<![CDATA[" + SectionBody(data)))
         == if AllChars(data) then Some(NormalizeLineEnds(data)) else None
  {
    NormalizeKeepsPrefix("<![CDATA[", SectionBody(data));
    NormalizeSectionBody(data);
    CDataReadsBack(NormalizeLineEnds(data));
    NormalizeKeepsChars(data);
  }

  lemma {:induction false} NormalizeKeepsChars(s: string)
    ensures AllChars(NormalizeLineEnds(s)) <==> AllChars(s)
    decreases |s|
  {
    if s != "" {
      hide NormalizeLineEnds;
      NormalizeUnfolds(s);
      NormalizeKeepsChars(s[1..]);
      assert s == [s[0]] + s[1..];
      AllCharsOfConcat([s[0]], s[1..]);
      AllCharsOfConcat([s[0]], NormalizeLineEnds(s[1..]));
      AllCharsOfConcat("\n", NormalizeLineEnds(s[1..]));
    } else {
      assert NormalizeLineEnds("") == "";
    }
  }

  lemma {:induction false} NormalizeChangesReturns(s: string)
    ensures NormalizeLineEnds(s) == s <==> !HasReturn(s)
    ensures !HasReturn(NormalizeLineEnds(s))
    decreases |s|
  {
    if s != "" {
      NormalizeUnfolds(s);
      NormalizeChangesReturns(s[1..]);
      var n := NormalizeLineEnds(s);
      if n == s {
        assert s[1..] == n[1..];
      }
      assert HasReturn(s) <==> s[0] == '\r' || HasReturn(s[1..]);
    }
  }

  // Escaping.

  /** The value of a `char`, which on some platforms is a signed type: a byte from 0x80 on is then
      negative. */
  function CharValue(ch: char, charIsSigned: bool): int {
    if charIsSigned && ch as int >= 0x80 then ch as int - 0x100 else ch as int
  }

  predicate IsNormalizableWhitespace(ch: char) { ch as int == 0x9 || ch as int == 0xA || ch as int == 0xD }

  predicate IsValidXmlCharacter(ch: char, charIsSigned: bool) {
    IsNormalizableWhitespace(ch) || CharValue(ch, charIsSigned) >= 0x20
  }

  predicate IsByte(ch: char) { ch as int < 0x100 }

  /** What that test comes to, for bytes and for the characters that they encode. */
  ghost predicate Kept(ch: char, charIsSigned: bool) {
    IsNormalizableWhitespace(ch) || (0x20 <= ch as int && (charIsSigned ==> ch as int < 0x80))
  }

  lemma BytesAreKept(ch: char, charIsSigned: bool)
    requires IsByte(ch)
    ensures IsValidXmlCharacter(ch, charIsSigned) <==> Kept(ch, charIsSigned)
  {
  }

  ghost predicate IsByteString(s: string) {
    forall i :: 0 <= i < |s| ==> IsByte(s[i])
  }

  ghost function EscapedCharacter(ch: char, isAttribute: bool, charIsSigned: bool): string {
    match ch
    case '<' => "&lt;"
    case '>' => "&gt;"
    case '&' => "&amp;"
    case '\'' => if isAttribute then "&apos;" else "'"
    case '"' => if isAttribute then "&quot;" else "\""
    case _ =>
      if !Kept(ch, charIsSigned) then ""
      else if isAttribute && IsNormalizableWhitespace(ch) then "&#x" + FormatByte(ch as int) + ";"
      else [ch]
  }

  /** Which bytes are escaped, by their numbers: markup always, quotes and white space other than
      blanks in attributes. Other control characters are left out, and so is everything beyond ASCII
      where it counts as negative. All else stays. */
  lemma EscapedCharacterExactly(ch: char, isAttribute: bool, charIsSigned: bool)
    requires IsByte(ch)
    ensures var n := ch as int;
            EscapedCharacter(ch, isAttribute, charIsSigned)
            == if n == 60 then "&lt;" else if n == 62 then "&gt;" else if n == 38 then "&amp;"
               else if isAttribute && n == 39 then "&apos;" else if isAttribute && n == 34 then "&quot;"
               else if isAttribute && n == 9 then "&#x09;" else if isAttribute && n == 10 then "&#x0A;"
               else if isAttribute && n == 13 then "&#x0D;"
               else if (n < 32 && n != 9 && n != 10 && n != 13) || (charIsSigned && n >= 128) then ""
               else [ch]
  {
    assert FormatByte(9) == "09" && FormatByte(10) == "0A" && FormatByte(13) == "0D";
  }

  ghost function Escaped(str: string, isAttribute: bool, charIsSigned: bool): string {
    if str == "" then ""
    else EscapedCharacter(str[0], isAttribute, charIsSigned) + Escaped(str[1..], isAttribute, charIsSigned)
  }

  method EscapeXml(str: string, isAttribute: bool, charIsSigned: bool) returns (m: string)
    requires IsByteString(str)
    ensures m == Escaped(str, isAttribute, charIsSigned)
  {
    m := "";
    for i := 0 to |str|
      invariant m + Escaped(str[i..], isAttribute, charIsSigned) == Escaped(str, isAttribute, charIsSigned)
    {
      var ch := str[i];
      ghost var before := m;
      BytesAreKept(ch, charIsSigned);
      match ch {
        case '<' => m := m + "&lt;";
        case '>' => m := m + "&gt;";
        case '&' => m := m + "&amp;";
        case '\'' =>
          if isAttribute {
            m := m + "&apos;";
          } else {
            m := m + "'";
          }
        case '"' =>
          if isAttribute {
            m := m + "&quot;";
          } else {
            m := m + "\"";
          }
        case _ =>
          if IsValidXmlCharacter(ch, charIsSigned) {
            if isAttribute && IsNormalizableWhitespace(ch) {
              m := m + "&#x" + FormatByte(ch as int) + ";";
            } else {
              m := m + [ch];
            }
          }
      }
      EscapedStep(str, i, before, m, isAttribute, charIsSigned);
    }
    assert str[|str|..] == "";
  }

  lemma EscapedStep(str: string, i: nat, before: string, after: string, isAttribute: bool, charIsSigned: bool)
    requires i < |str| && after == before + EscapedCharacter(str[i], isAttribute, charIsSigned)
    ensures before + Escaped(str[i..], isAttribute, charIsSigned)
         == after + Escaped(str[i + 1..], isAttribute, charIsSigned)
  {
    var rest := str[i..];
    assert rest[0] == str[i] && rest[1..] == str[i + 1..];
    assert Escaped(rest, isAttribute, charIsSigned)
        == EscapedCharacter(str[i], isAttribute, charIsSigned) + Escaped(str[i + 1..], isAttribute, charIsSigned);
    hide Escaped, EscapedCharacter;
  }

  /** What the test leaves of a string. */
  ghost function Allowed(str: string, charIsSigned: bool): string {
    if str == "" then ""
    else (if Kept(str[0], charIsSigned) then [str[0]] else "") + Allowed(str[1..], charIsSigned)
  }

  // Reading escaped text back.

  lemma ReadEntity(name: string, ch: char, rest: string)
    requires (name, ch) in {("&lt;", '<'), ("&gt;", '>'), ("&amp;", '&'), ("&apos;", '\''), ("&quot;", '"')}
    ensures ReadAttribute(name + rest) == Prepend(ch, ReadAttribute(rest))
    ensures ReadContent(name + rest) == Prepend(ch, ReadContent(rest))
  {
    var t := name + rest;
    assert t[..|name|] == name && t[|name|..] == rest;
    assert t[0] == name[0] && t[1] == name[1] && t[2] == name[2] && t[3] == name[3];
    EntityOfName(name, ch, t);
  }

  lemma EntityOfName(name: string, ch: char, t: string)
    requires (name, ch) in {("&lt;", '<'), ("&gt;", '>'), ("&amp;", '&'), ("&apos;", '\''), ("&quot;", '"')}
    requires |t| >= |name| && t[..|name|] == name
    ensures Entity(t) == Some((ch, |name|)) && CharacterReference(t) == None
  {
    assert t[0] == name[0] && t[1] == name[1] && t[2] == name[2] && t[3] == name[3];
    if |t| >= 3 { assert t[..3][1] == t[1]; }
    if |t| >= 4 { assert t[..4][1] == t[1]; }
    if |t| >= 5 { assert t[..5][1] == t[1]; }
    if |t| >= 6 { assert t[..6][1] == t[1]; }
  }

  lemma ReadReference(ch: char, rest: string)
    requires IsNormalizableWhitespace(ch)
    ensures ReadAttribute("&#x" + FormatByte(ch as int) + ";" + rest) == Prepend(ch, ReadAttribute(rest))
  {
    var digits := FormatByte(ch as int);
    var t := "&#x" + digits + ";" + rest;
    assert t[..3] == "&#x" && t[3] == digits[0] && t[4] == digits[1] && t[5] == ';' && t[6..] == rest;
    assert CharacterReference(t) == Some(ch);
  }

  /** An escaped character that XML allows is read as itself, in an attribute and in text; in text,
      not counting line ends. One that it forbids is rejected. */
  lemma EscapedCharacterReadsBack(ch: char, rest: string)
    requires Kept(ch, false)
    ensures ReadAttribute(EscapedCharacter(ch, true, false) + rest)
         == if IsChar(ch) then Prepend(ch, ReadAttribute(rest)) else None
    ensures !AtEnd(EscapedCharacter(ch, false, false) + rest) ==>
              ReadContent(EscapedCharacter(ch, false, false) + rest)
              == if IsChar(ch) then Prepend(ch, ReadContent(rest)) else None
  {
    assert ([ch] + rest)[1..] == rest;
    match ch {
      case '<' => ReadEntity("&lt;", '<', rest);
      case '>' => ReadEntity("&gt;", '>', rest);
      case '&' => ReadEntity("&amp;", '&', rest);
      case '\'' => ReadEntity("&apos;", '\'', rest);
      case '"' => ReadEntity("&quot;", '"', rest);
      case _ =>
        if IsNormalizableWhitespace(ch) {
          ReadReference(ch, rest);
        }
    }
  }

  ghost predicate AllKept(str: string) {
    forall i :: 0 <= i < |str| ==> Kept(str[i], false)
  }

  /** Attribute values survive normalisation, and those with a forbidden character are rejected. */
  lemma {:induction false} AttributeReadsBack(str: string)
    requires AllKept(str)
    ensures ReadAttribute(Escaped(str, true, false)) == if AllChars(str) then Some(str) else None
    decreases |str|
  {
    if str != "" {
      AttributeReadsBack(str[1..]);
      hide ReadAttribute;
      EscapedCharacterReadsBack(str[0], Escaped(str[1..], true, false));
      assert str == [str[0]] + str[1..];
      AllCharsOfConcat([str[0]], str[1..]);
    }
  }

  /** So does text outside attributes, before line ends are handled; it holds no '>' that could end
      a section. */
  lemma {:induction false} TextReadsBack(str: string)
    requires AllKept(str)
    ensures ReadContent(Escaped(str, false, false)) == if AllChars(str) then Some(str) else None
    ensures forall i :: 0 <= i < |Escaped(str, false, false)| ==> Escaped(str, false, false)[i] != '>'
    decreases |str|
  {
    if str != "" {
      TextReadsBack(str[1..]);
      var rest := Escaped(str[1..], false, false);
      assert forall i :: 0 <= i < |EscapedCharacter(str[0], false, false)| ==>
          EscapedCharacter(str[0], false, false)[i] != '>';
      hide ReadContent, EscapedCharacter;
      EscapedCharacterReadsBack(str[0], rest);
      assert str == [str[0]] + str[1..];
      AllCharsOfConcat([str[0]], str[1..]);
    }
  }
}
