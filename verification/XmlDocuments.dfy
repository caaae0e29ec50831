/** The XML report as a document: bytes in UTF-8, as its first line declares, read by an XML 1.0
    processor. A string of bytes is a string of the characters with these numbers. */
module XmlDocuments {
  import opened Options
  import opened Bytes
  import opened Unicode
  import opened XmlReader
  import opened XmlEscaping

  ghost function BytesOf(s: string): (b: seq<Byte>)
    requires IsByteString(s)
    ensures |b| == |s| && forall i :: 0 <= i < |s| ==> b[i] == s[i] as int
  {
    seq(|s|, i requires 0 <= i < |s| => s[i] as int)
  }

  ghost predicate IsScalar(v: CodePoint) { v < 0xD800 || 0xE000 <= v < 0x11_0000 }

  /** The first character (section 3 of RFC 3629), and how many bytes it takes. */
  ghost function DecodedFirst(s: string): (first: Option<(char, nat)>)
    requires s != "" && IsByteString(s)
    ensures first.Some? ==> 0 < first.value.1 <= |s|
  {
    match DecodeFirst(BytesOf(s))
    case None => None
    case Some((v, n)) => if IsScalar(v) then Some((v as char, n)) else None
  }

  /** The characters of a document, if it is well formed. */
  ghost function Decoded(s: string): Option<string>
    requires IsByteString(s)
    decreases |s|
  {
    if s == "" then Some("")
    else
      match DecodedFirst(s)
      case None => None
      case Some((c, n)) => Prepend(c, Decoded(s[n..]))
  }

  /** What a processor reads as content: malformed documents are rejected, line ends handled. */
  ghost function Content(s: string): Option<string>
    requires IsByteString(s)
  {
    if Decoded(s).Some? then ReadContent(NormalizeLineEnds(Decoded(s).value)) else None
  }

  ghost function AttributeValue(s: string): Option<string>
    requires IsByteString(s)
  {
    if Decoded(s).Some? then ReadAttribute(NormalizeLineEnds(Decoded(s).value)) else None
  }

  // Decoding.

  predicate IsHigh(c: char) { c as int >= 0x80 }

  /** How many bytes of multibyte characters a string starts with. */
  ghost function HighRun(s: string): (h: nat)
    ensures h <= |s| && forall i :: 0 <= i < h ==> IsHigh(s[i])
    ensures h < |s| ==> !IsHigh(s[h])
  {
    if s == "" || !IsHigh(s[0]) then 0 else 1 + HighRun(s[1..])
  }

  lemma LowFirst(s: string)
    requires s != "" && IsByteString(s) && !IsHigh(s[0])
    ensures Decoded(s) == Prepend(s[0], Decoded(s[1..]))
  {
  }

  lemma DecodedUnfolds(s: string)
    requires s != "" && IsByteString(s)
    ensures Decoded(s) == if DecodedFirst(s).Some?
                          then Prepend(DecodedFirst(s).value.0, Decoded(s[DecodedFirst(s).value.1..]))
                          else None
  {
  }

  /** A multibyte character is not ASCII and takes only bytes that are not. */
  lemma HighFirst(s: string)
    requires s != "" && IsByteString(s) && IsHigh(s[0]) && DecodedFirst(s).Some?
    ensures var (c, n) := DecodedFirst(s).value; IsHigh(c) && n <= HighRun(s)
  {
    var b := BytesOf(s);
    assert DecodeFirst(b).Some?;
    hide HighRun;
  }

  /** What the first character is depends only on the bytes before the next ASCII character. */
  lemma FirstOfSameRun(s: string, t: string)
    requires s != "" && t != "" && IsByteString(s) && IsByteString(t) && IsHigh(s[0])
    requires HighRun(s) == HighRun(t) && s[..HighRun(s)] == t[..HighRun(t)]
    ensures DecodedFirst(s) == DecodedFirst(t)
  {
    var h := HighRun(s);
    assert forall i :: 0 <= i < h ==> s[i] == s[..h][i] == t[i];
    hide HighRun;
    assert h > 0;
    SameFirstBytes(BytesOf(s), BytesOf(t), h);
  }

  lemma SameFirstBytes(a: seq<Byte>, b: seq<Byte>, h: nat)
    requires 0 < h <= |a| && h <= |b| && forall i :: 0 <= i < h ==> a[i] == b[i] >= 0x80
    requires (h < |a| ==> a[h] < 0x80) && (h < |b| ==> b[h] < 0x80)
    ensures DecodeFirst(a) == DecodeFirst(b)
  {
    assert a[0] == b[0];
    if h > 1 {
      assert a[1] == b[1];
      if h > 2 {
        assert a[2] == b[2];
        if h > 3 {
          assert a[3] == b[3];
        }
      }
    }
  }

  /** Or only on the bytes it takes. */
  lemma FirstOfSamePrefix(s: string, t: string, n: nat)
    requires s != "" && t != "" && IsByteString(s) && IsByteString(t)
    requires DecodedFirst(s).Some? && DecodedFirst(s).value.1 == n <= |t| && s[..n] == t[..n]
    ensures DecodedFirst(t) == DecodedFirst(s)
  {
    assert forall i :: 0 <= i < n ==> s[i] == s[..n][i] == t[i];
  }

  lemma {:induction false} DecodedAscii(a: string, b: string)
    requires IsByteString(a + b) && IsByteString(b) && forall i :: 0 <= i < |a| ==> !IsHigh(a[i])
    ensures Decoded(a + b) == if Decoded(b).Some? then Some(a + Decoded(b).value) else None
    decreases |a|
  {
    hide Decoded;
    if a == "" {
      assert a + b == b && forall x: string :: a + x == x;
    } else {
      LowFirst(a + b);
      assert (a + b)[1..] == a[1..] + b;
      DecodedAscii(a[1..], b);
      assert forall x: string :: [a[0]] + (a[1..] + x) == a + x;
    }
  }

  /** ASCII characters stay where they are. */
  lemma DecodedStart(s: string)
    requires s != "" && IsByteString(s) && Decoded(s).Some?
    ensures Decoded(s).value != ""
    ensures var c := Decoded(s).value[0]; if IsHigh(s[0]) then IsHigh(c) else c == s[0]
  {
    if IsHigh(s[0]) {
      HighFirst(s);
    } else {
      LowFirst(s);
    }
  }

  lemma DecodedKeepsEnd(s: string)
    requires IsByteString(s) && Decoded(s).Some?
    ensures AtEnd(Decoded(s).value) <==> AtEnd(s)
  {
    if s != "" {
      DecodedStart(s);
      if !IsHigh(s[0]) {
        LowFirst(s);
        if |s| > 1 {
          DecodedStart(s[1..]);
          if !IsHigh(s[1]) {
            LowFirst(s[1..]);
            if |s| > 2 {
              DecodedStart(s[1..][1..]);
            }
          }
        }
      }
    }
  }

  // CDATA sections.

  lemma {:induction false} SectionBodyIsBytes(s: string)
    requires IsByteString(s)
    ensures IsByteString(SectionBody(s))
    decreases |s|
  {
    if AtEnd(s) {
      SectionBodyIsBytes(s[3..]);
    } else if s != "" {
      SectionBodyIsBytes(s[1..]);
    }
  }

  lemma {:induction false} SectionBodyOfHigh(a: string, b: string)
    requires forall i :: 0 <= i < |a| ==> IsHigh(a[i])
    ensures SectionBody(a + b) == a + SectionBody(b)
    decreases |a|
  {
    hide SectionBody;
    if a == "" {
      assert a + b == b;
    } else {
      SectionBodyOfHigh(a[1..], b);
      SectionBodyOfCons(a[0], a[1..] + b);
      assert a + b == [a[0]] + (a[1..] + b);
    }
  }

  lemma SectionBodyOfCons(c: char, rest: string)
    requires c != ']'
    ensures SectionBody([c] + rest) == [c] + SectionBody(rest)
  {
    assert ([c] + rest)[1..] == rest;
  }

  lemma SectionBodyCopies(s: string, n: nat)
    requires n <= HighRun(s)
    ensures SectionBody(s) == s[..n] + SectionBody(s[n..])
  {
    hide SectionBody;
    SectionBodyOfHigh(s[..n], s[n..]);
    assert s == s[..n] + s[n..];
  }

  lemma HighRunOfConcat(a: string, b: string)
    requires (forall i :: 0 <= i < |a| ==> IsHigh(a[i])) && (b == "" || !IsHigh(b[0]))
    ensures HighRun(a + b) == |a|
  {
    hide HighRun;
    assert forall i :: 0 <= i < |a| ==> (a + b)[i] == a[i];
    assert b != "" ==> (a + b)[|a|] == b[0];
  }

  lemma SectionBodyKeepsRun(s: string)
    ensures HighRun(SectionBody(s)) == HighRun(s) && SectionBody(s)[..HighRun(s)] == s[..HighRun(s)]
  {
    var h := HighRun(s);
    SectionBodyCopies(s, h);
    hide HighRun, SectionBody;
    BodyStart(s[h..]);
    HighRunOfConcat(s[..h], SectionBody(s[h..]));
  }

  /** The section of an encoded text is the encoded section of the text; and a malformed text
      gives a malformed section. */
  lemma {:induction false} DecodedSectionBody(s: string)
    requires IsByteString(s)
    ensures IsByteString(SectionBody(s))
    ensures Decoded(SectionBody(s)) == if Decoded(s).Some? then Some(SectionBody(Decoded(s).value)) else None
    decreases |s|
  {
    SectionBodyIsBytes(s);
    if s == "" {
      DecodedAscii(kEnd, "");
      assert kEnd + "" == kEnd;
    } else if AtEnd(s) {
      DecodedEndOfSection(s);
    } else if IsHigh(s[0]) {
      DecodedHighOfSection(s);
    } else {
      DecodedLowOfSection(s);
    }
  }

  lemma {:induction false} DecodedEndOfSection(s: string)
    requires IsByteString(s) && AtEnd(s) && IsByteString(SectionBody(s)) && IsByteString(s[3..])
    ensures Decoded(SectionBody(s)) == if Decoded(s).Some? then Some(SectionBody(Decoded(s).value)) else None
    decreases |s|, 0
  {
    hide Decoded, IsByteString, SectionBody;
    var rest := s[3..];
    DecodedSectionBody(rest);
    assert s == kEnd + rest;
    SectionBodyOfEnd(rest);
    DecodedAscii(kEscapedEnd, SectionBody(rest));
    DecodedAscii(kEnd, rest);
    if Decoded(rest).Some? {
      SectionBodyOfEnd(Decoded(rest).value);
    }
  }

  lemma SectionBodyOfEnd(rest: string)
    ensures SectionBody(kEnd + rest) == kEscapedEnd + SectionBody(rest)
  {
    assert AtEnd(kEnd + rest) && (kEnd + rest)[3..] == rest;
  }

  lemma {:induction false} DecodedLowOfSection(s: string)
    requires s != "" && IsByteString(s) && !AtEnd(s) && !IsHigh(s[0]) && IsByteString(SectionBody(s))
    ensures Decoded(SectionBody(s)) == if Decoded(s).Some? then Some(SectionBody(Decoded(s).value)) else None
    decreases |s|, 0
  {
    var t := SectionBody(s);
    DecodedSectionBody(s[1..]);
    assert t == [s[0]] + SectionBody(s[1..]) && t[1..] == SectionBody(s[1..]);
    LowFirst(t);
    LowFirst(s);
    if Decoded(s).Some? {
      DecodedKeepsEnd(s);
    }
  }

  lemma {:induction false} DecodedHighOfSection(s: string)
    requires s != "" && IsByteString(s) && !AtEnd(s) && IsHigh(s[0]) && IsByteString(SectionBody(s))
    ensures Decoded(SectionBody(s)) == if Decoded(s).Some? then Some(SectionBody(Decoded(s).value)) else None
    decreases |s|, 0
  {
    hide Decoded, DecodedFirst, HighRun, SectionBody, AtEnd;
    var t := SectionBody(s);
    SectionBodyKeepsRun(s);
    FirstOfSameRun(s, t);
    DecodedUnfolds(s);
    DecodedUnfolds(t);
    if DecodedFirst(s).Some? {
      var (c, n) := DecodedFirst(s).value;
      HighFirst(s);
      SectionBodyCopies(s, n);
      DecodedSectionBody(s[n..]);
      assert t[n..] == SectionBody(s[n..]);
      if Decoded(s[n..]).Some? {
        SectionBodyOfCons(c, Decoded(s[n..]).value);
      }
    }
  }

  ghost function Section(data: string): string { "<![CDATA[" + SectionBody(data) }

  /** What is read for a section, whatever the data. */
  lemma SectionContent(data: string)
    requires IsByteString(data)
    ensures IsByteString(Section(data))
    ensures Content(Section(data))
         == if Decoded(data).Some? && AllChars(Decoded(data).value) then Some(NormalizeLineEnds(Decoded(data).value))
            else None
  {
    hide *;
    DecodedSectionBody(data);
    SectionDecoded(data);
    if Decoded(data).Some? {
      CDataReadsBackNormalized(Decoded(data).value);
      ContentOf(Section(data));
    } else {
      ContentOf(Section(data));
    }
  }

  lemma ContentOf(s: string)
    requires IsByteString(s)
    ensures Content(s) == if Decoded(s).Some? then ReadContent(NormalizeLineEnds(Decoded(s).value)) else None
  {
  }

  lemma SectionDecoded(data: string)
    requires IsByteString(data) && IsByteString(SectionBody(data))
    ensures IsByteString(Section(data))
    ensures Decoded(Section(data))
         == if Decoded(SectionBody(data)).Some? then Some("<![CDATA[" + Decoded(SectionBody(data)).value) else None
  {
    hide Decoded, SectionBody;
    DecodedAscii("<![CDATA[", SectionBody(data));
  }

  /** The section reads back as the data exactly if the data is well-formed UTF-8, XML allows all
      its characters, and no carriage return is among them. */
  lemma CDataReadsBackExactly(data: string)
    requires IsByteString(data)
    ensures IsByteString(Section(data))
    ensures Content(Section(data)).Some? && Content(Section(data)) == Decoded(data)
            <==> Decoded(data).Some? && AllChars(Decoded(data).value) && !HasReturn(Decoded(data).value)
  {
    SectionContent(data);
    if Decoded(data).Some? {
      NormalizeChangesReturns(Decoded(data).value);
    }
  }

  // Escaped text.

  lemma {:induction false} AllowedIsBytes(s: string, charIsSigned: bool)
    requires IsByteString(s)
    ensures IsByteString(Allowed(s, charIsSigned)) && AllKept(Allowed(s, charIsSigned))
    decreases |s|
  {
    if s != "" {
      AllowedIsBytes(s[1..], charIsSigned);
    }
  }

  /** Escaping drops just what RemoveInvalidXmlCharacters drops. */
  lemma {:induction false} EscapedOfAllowed(s: string, isAttribute: bool, charIsSigned: bool)
    ensures Escaped(s, isAttribute, charIsSigned) == Escaped(Allowed(s, charIsSigned), isAttribute, false)
    decreases |s|
  {
    if s != "" {
      EscapedOfAllowed(s[1..], isAttribute, charIsSigned);
      var allowed := Allowed(s, charIsSigned);
      if Kept(s[0], charIsSigned) {
        assert allowed[1..] == Allowed(s[1..], charIsSigned);
        assert EscapedCharacter(s[0], isAttribute, charIsSigned) == EscapedCharacter(s[0], isAttribute, false);
      } else {
        assert allowed == Allowed(s[1..], charIsSigned);
        assert EscapedCharacter(s[0], isAttribute, charIsSigned) == "";
      }
    }
  }

  lemma EscapedOfCons(c: char, rest: string, isAttribute: bool)
    ensures Escaped([c] + rest, isAttribute, false)
         == EscapedCharacter(c, isAttribute, false) + Escaped(rest, isAttribute, false)
  {
    assert ([c] + rest)[1..] == rest;
  }

  lemma EscapedAscii(c: char, isAttribute: bool)
    requires IsByte(c) && !IsHigh(c) && Kept(c, false)
    ensures var text := EscapedCharacter(c, isAttribute, false);
            text != "" && forall i :: 0 <= i < |text| ==> !IsHigh(text[i])
  {
    if isAttribute && IsNormalizableWhitespace(c) {
      var digits := FormatByte(c as int);
      assert !IsHigh(digits[0]) && !IsHigh(digits[1]);
    }
  }

  lemma {:induction false} EscapedIsBytes(s: string, isAttribute: bool)
    requires IsByteString(s) && AllKept(s)
    ensures IsByteString(Escaped(s, isAttribute, false))
    decreases |s|
  {
    if s != "" {
      EscapedIsBytes(s[1..], isAttribute);
      if !IsHigh(s[0]) {
        EscapedAscii(s[0], isAttribute);
      }
      hide EscapedCharacter;
    }
  }

  lemma HighIsPlain(c: char, isAttribute: bool)
    requires IsHigh(c)
    ensures EscapedCharacter(c, isAttribute, false) == [c]
  {
  }

  lemma LineEndsArePlain()
    ensures EscapedCharacter('\r', false, false) == "\r" && EscapedCharacter('\n', false, false) == "\n"
    ensures Kept('\n', false)
  {
  }

  lemma {:induction false} EscapedOfHigh(a: string, b: string, isAttribute: bool)
    requires forall i :: 0 <= i < |a| ==> IsHigh(a[i])
    ensures Escaped(a + b, isAttribute, false) == a + Escaped(b, isAttribute, false)
    decreases |a|
  {
    hide Escaped, EscapedCharacter;
    if a == "" {
      assert a + b == b;
    } else {
      HighIsPlain(a[0], isAttribute);
      EscapedOfHigh(a[1..], b, isAttribute);
      EscapedOfCons(a[0], a[1..] + b, isAttribute);
      assert a + b == [a[0]] + (a[1..] + b);
    }
  }

  lemma EscapedCopies(s: string, isAttribute: bool, n: nat)
    requires n <= HighRun(s)
    ensures Escaped(s, isAttribute, false) == s[..n] + Escaped(s[n..], isAttribute, false)
  {
    hide Escaped;
    EscapedOfHigh(s[..n], s[n..], isAttribute);
    assert s == s[..n] + s[n..];
  }

  lemma EscapedKeepsRun(s: string, isAttribute: bool)
    requires IsByteString(s) && AllKept(s)
    ensures var t := Escaped(s, isAttribute, false);
            HighRun(t) == HighRun(s) && t[..HighRun(s)] == s[..HighRun(s)]
  {
    var h := HighRun(s);
    EscapedCopies(s, isAttribute, h);
    if h < |s| {
      EscapedAscii(s[h], isAttribute);
      assert Escaped(s[h..], isAttribute, false)[0] == EscapedCharacter(s[h], isAttribute, false)[0];
    }
    hide HighRun, Escaped, EscapedCharacter;
    HighRunOfConcat(s[..h], Escaped(s[h..], isAttribute, false));
  }

  /** Escaping an encoded text is encoding the escaped text; malformed text stays malformed. */
  lemma {:induction false} DecodedEscaped(s: string, isAttribute: bool)
    requires IsByteString(s) && AllKept(s)
    ensures IsByteString(Escaped(s, isAttribute, false))
    ensures Decoded(Escaped(s, isAttribute, false))
         == if Decoded(s).Some? then Some(Escaped(Decoded(s).value, isAttribute, false)) else None
    ensures Decoded(s).Some? ==> AllKept(Decoded(s).value)
    decreases |s|
  {
    EscapedIsBytes(s, isAttribute);
    if s != "" {
      if IsHigh(s[0]) {
        DecodedHighOfEscaped(s, isAttribute);
      } else {
        DecodedLowOfEscaped(s, isAttribute);
      }
    }
  }

  lemma {:induction false} DecodedLowOfEscaped(s: string, isAttribute: bool)
    requires s != "" && IsByteString(s) && AllKept(s) && !IsHigh(s[0])
    requires IsByteString(Escaped(s, isAttribute, false))
    ensures Decoded(Escaped(s, isAttribute, false))
         == if Decoded(s).Some? then Some(Escaped(Decoded(s).value, isAttribute, false)) else None
    ensures Decoded(s).Some? ==> AllKept(Decoded(s).value)
    decreases |s|, 0
  {
    DecodedEscaped(s[1..], isAttribute);
    EscapedAscii(s[0], isAttribute);
    LowFirst(s);
    hide Decoded, EscapedCharacter;
    DecodedAscii(EscapedCharacter(s[0], isAttribute, false), Escaped(s[1..], isAttribute, false));
    if Decoded(s).Some? {
      assert Decoded(s).value[1..] == Decoded(s[1..]).value;
    }
  }

  lemma {:induction false} DecodedHighOfEscaped(s: string, isAttribute: bool)
    requires s != "" && IsByteString(s) && AllKept(s) && IsHigh(s[0])
    requires IsByteString(Escaped(s, isAttribute, false))
    ensures Decoded(Escaped(s, isAttribute, false))
         == if Decoded(s).Some? then Some(Escaped(Decoded(s).value, isAttribute, false)) else None
    ensures Decoded(s).Some? ==> AllKept(Decoded(s).value)
    decreases |s|, 0
  {
    hide Escaped, EscapedCharacter, HighRun, Decoded, DecodedFirst;
    var t := Escaped(s, isAttribute, false);
    EscapedKeepsRun(s, isAttribute);
    FirstOfSameRun(s, t);
    DecodedUnfolds(s);
    DecodedUnfolds(t);
    if DecodedFirst(s).Some? {
      var (c, n) := DecodedFirst(s).value;
      HighFirst(s);
      EscapedCopies(s, isAttribute, n);
      DecodedEscaped(s[n..], isAttribute);
      assert t[n..] == Escaped(s[n..], isAttribute, false);
      if Decoded(s[n..]).Some? {
        EscapedOfHigh([c], Decoded(s[n..]).value, isAttribute);
      }
    }
  }

  lemma {:induction false} EscapedAttributeHasNoReturn(s: string)
    requires AllKept(s)
    ensures forall i :: 0 <= i < |Escaped(s, true, false)| ==> Escaped(s, true, false)[i] != '\r'
    decreases |s|
  {
    if s != "" {
      EscapedAttributeHasNoReturn(s[1..]);
      if IsNormalizableWhitespace(s[0]) {
        var digits := FormatByte(s[0] as int);
        assert digits[0] != '\r' && digits[1] != '\r';
      }
    }
  }

  /** What is read for an escaped attribute value, whatever the string. */
  lemma AttributeContent(s: string, charIsSigned: bool)
    requires IsByteString(s)
    ensures IsByteString(Escaped(s, true, charIsSigned)) && IsByteString(Allowed(s, charIsSigned))
    ensures var read := Decoded(Allowed(s, charIsSigned));
            AttributeValue(Escaped(s, true, charIsSigned))
            == if read.Some? && AllChars(read.value) then read else None
  {
    AllowedIsBytes(s, charIsSigned);
    EscapedOfAllowed(s, true, charIsSigned);
    DecodedEscaped(Allowed(s, charIsSigned), true);
    hide Decoded, Allowed, Escaped;
    var read := Decoded(Allowed(s, charIsSigned));
    if read.Some? {
      EscapedAttributeHasNoReturn(read.value);
      NormalizeKeepsPrefix(Escaped(read.value, true, false), "");
      assert Escaped(read.value, true, false) + "" == Escaped(read.value, true, false);
      assert NormalizeLineEnds("") == "";
      AttributeReadsBack(read.value);
    }
  }

  /** What is read for escaped text. */
  lemma TextContent(s: string, charIsSigned: bool)
    requires IsByteString(s)
    ensures IsByteString(Escaped(s, false, charIsSigned)) && IsByteString(Allowed(s, charIsSigned))
    ensures var read := Decoded(Allowed(s, charIsSigned));
            Content(Escaped(s, false, charIsSigned))
            == if read.Some? && AllChars(read.value) then Some(NormalizeLineEnds(read.value)) else None
  {
    AllowedIsBytes(s, charIsSigned);
    EscapedOfAllowed(s, false, charIsSigned);
    DecodedEscaped(Allowed(s, charIsSigned), false);
    hide Decoded, Allowed, Escaped;
    var read := Decoded(Allowed(s, charIsSigned));
    if read.Some? {
      NormalizeEscaped(read.value);
      NormalizeKeepsChars(read.value);
      TextReadsBack(NormalizeLineEnds(read.value));
    }
  }

  lemma {:induction false} NormalizeEscaped(s: string)
    requires AllKept(s)
    ensures NormalizeLineEnds(Escaped(s, false, false)) == Escaped(NormalizeLineEnds(s), false, false)
    ensures AllKept(NormalizeLineEnds(s))
    decreases |s|
  {
    if s != "" {
      NormalizeEscaped(s[1..]);
      if s[0] == '\r' {
        NormalizeEscapedReturn(s);
      } else {
        NormalizeEscapedPlain(s);
      }
    }
  }

  lemma PlainHasNoReturn(c: char)
    requires c != '\r'
    ensures var text := EscapedCharacter(c, false, false);
            forall i :: 0 <= i < |text| ==> text[i] != '\r'
  {
  }

  lemma NormalizeEscapedPlain(s: string)
    requires s != "" && s[0] != '\r' && AllKept(s)
    requires NormalizeLineEnds(Escaped(s[1..], false, false)) == Escaped(NormalizeLineEnds(s[1..]), false, false)
    requires AllKept(NormalizeLineEnds(s[1..]))
    ensures NormalizeLineEnds(Escaped(s, false, false)) == Escaped(NormalizeLineEnds(s), false, false)
    ensures AllKept(NormalizeLineEnds(s))
  {
    hide NormalizeLineEnds, EscapedCharacter, Escaped, Kept;
    var text := EscapedCharacter(s[0], false, false);
    PlainHasNoReturn(s[0]);
    NormalizeUnfolds(s);
    NormalizeKeepsPrefix(text, Escaped(s[1..], false, false));
    assert s == [s[0]] + s[1..];
    EscapedOfCons(s[0], s[1..], false);
    EscapedOfCons(s[0], NormalizeLineEnds(s[1..]), false);
  }

  lemma NormalizeEscapedReturn(s: string)
    requires s != "" && s[0] == '\r' && AllKept(s)
    requires NormalizeLineEnds(Escaped(s[1..], false, false)) == Escaped(NormalizeLineEnds(s[1..]), false, false)
    requires AllKept(NormalizeLineEnds(s[1..]))
    ensures NormalizeLineEnds(Escaped(s, false, false)) == Escaped(NormalizeLineEnds(s), false, false)
    ensures AllKept(NormalizeLineEnds(s))
  {
    hide Escaped, NormalizeLineEnds, EscapedCharacter, Kept;
    var t, rest := Escaped(s, false, false), Escaped(s[1..], false, false);
    assert s == "\r" + s[1..];
    LineEndsArePlain();
    NormalizeUnfolds(s);
    StartsWithLineFeed(s[1..]);
    EscapedOfCons('\r', s[1..], false);
    EscapedOfCons('\n', NormalizeLineEnds(s[1..]), false);
    assert t[1..] == rest;
    NormalizeUnfolds(t);
  }

  lemma StartsWithLineFeed(s: string)
    requires AllKept(s)
    ensures var t := Escaped(s, false, false);
            t != "" && t[0] == '\n' <==> s != "" && s[0] == '\n'
  {
  }

  // What XML allows, and what the test keeps.

  /** The characters that XML allows. */
  ghost function CharsOf(s: string): string {
    if s == "" then "" else (if IsChar(s[0]) then [s[0]] else "") + CharsOf(s[1..])
  }

  /** The test keeps a character exactly if XML allows it. */
  ghost predicate TestedRight(s: string, charIsSigned: bool) {
    forall i :: 0 <= i < |s| && IsHigh(s[i]) ==> if charIsSigned then !IsChar(s[i]) else IsChar(s[i])
  }

  lemma {:induction false} TestedRightExactly(s: string, charIsSigned: bool)
    ensures Allowed(s, charIsSigned) == CharsOf(s) <==> TestedRight(s, charIsSigned)
    ensures AllKept(Allowed(s, charIsSigned)) && AllChars(CharsOf(s))
    ensures charIsSigned ==> forall i :: 0 <= i < |Allowed(s, true)| ==> !IsHigh(Allowed(s, true)[i])
    decreases |s|
  {
    if s != "" {
      TestedRightExactly(s[1..], charIsSigned);
      TestedRightUnfolds(s, charIsSigned);
      hide TestedRight;
      var a, c := Allowed(s, charIsSigned), CharsOf(s);
      var a', c' := Allowed(s[1..], charIsSigned), CharsOf(s[1..]);
      if Kept(s[0], charIsSigned) {
        assert a == [s[0]] + a' && a[1..] == a';
        if IsChar(s[0]) {
          assert c == [s[0]] + c' && c[1..] == c';
        } else {
          assert c == c';
          assert c != "" ==> IsChar(c[0]);
        }
      } else {
        assert a == a';
        if IsChar(s[0]) {
          assert c[0] == s[0] && c[1..] == c';
        } else {
          assert c == c';
        }
      }
    }
  }

  lemma TestedRightUnfolds(s: string, charIsSigned: bool)
    requires s != ""
    ensures TestedRight(s, charIsSigned)
            <==> (Kept(s[0], charIsSigned) <==> IsChar(s[0])) && TestedRight(s[1..], charIsSigned)
  {
    assert s == [s[0]] + s[1..];
    if TestedRight(s, charIsSigned) {
      assert forall i :: 0 <= i < |s| - 1 ==> s[1..][i] == s[i + 1];
    }
  }

  lemma {:induction false} ReturnsStay(s: string, charIsSigned: bool)
    ensures HasReturn(Allowed(s, charIsSigned)) <==> HasReturn(s)
    ensures HasReturn(CharsOf(s)) <==> HasReturn(s)
    decreases |s|
  {
    if s != "" {
      ReturnsStay(s[1..], charIsSigned);
      ReturnOfConcat([s[0]], s[1..]);
      ReturnOfConcat(if Kept(s[0], charIsSigned) then [s[0]] else "", Allowed(s[1..], charIsSigned));
      ReturnOfConcat(if IsChar(s[0]) then [s[0]] else "", CharsOf(s[1..]));
      assert s == [s[0]] + s[1..];
    }
  }

  lemma ReturnOfConcat(a: string, b: string)
    ensures HasReturn(a + b) <==> HasReturn(a) || HasReturn(b)
  {
    if i :| 0 <= i < |a| && a[i] == '\r' {
      assert (a + b)[i] == '\r';
    }
    if i :| 0 <= i < |b| && b[i] == '\r' {
      assert (a + b)[|a| + i] == '\r';
    }
  }

  /** The test looks at bytes, but drops and keeps whole characters. */
  lemma {:induction false} DecodedAllowed(s: string, charIsSigned: bool)
    requires IsByteString(s) && Decoded(s).Some?
    ensures IsByteString(Allowed(s, charIsSigned))
    ensures Decoded(Allowed(s, charIsSigned)) == Some(Allowed(Decoded(s).value, charIsSigned))
    decreases |s|
  {
    AllowedIsBytes(s, charIsSigned);
    if s != "" {
      var (c, n) := DecodedFirst(s).value;
      DecodedAllowed(s[n..], charIsSigned);
      if IsHigh(s[0]) {
        HighFirst(s);
        DecodedAllowedHigh(s, charIsSigned);
      } else {
        DecodedAllowedLow(s, charIsSigned);
      }
    }
  }

  lemma AllowedOfCons(c: char, rest: string, charIsSigned: bool)
    ensures Allowed([c] + rest, charIsSigned)
         == (if Kept(c, charIsSigned) then [c] else "") + Allowed(rest, charIsSigned)
  {
    assert ([c] + rest)[1..] == rest;
  }

  lemma DecodedAllowedLow(s: string, charIsSigned: bool)
    requires s != "" && IsByteString(s) && Decoded(s).Some? && !IsHigh(s[0])
    requires IsByteString(Allowed(s, charIsSigned)) && IsByteString(Allowed(s[1..], charIsSigned))
    requires Decoded(s[1..]).Some?
    requires Decoded(Allowed(s[1..], charIsSigned)) == Some(Allowed(Decoded(s[1..]).value, charIsSigned))
    ensures Decoded(Allowed(s, charIsSigned)) == Some(Allowed(Decoded(s).value, charIsSigned))
  {
    hide Decoded, Allowed, Kept;
    LowFirst(s);
    assert s == [s[0]] + s[1..];
    AllowedOfCons(s[0], s[1..], charIsSigned);
    AllowedOfCons(s[0], Decoded(s[1..]).value, charIsSigned);
    DecodedAscii(if Kept(s[0], charIsSigned) then [s[0]] else "", Allowed(s[1..], charIsSigned));
  }

  lemma DecodedAllowedHigh(s: string, charIsSigned: bool)
    requires s != "" && IsByteString(s) && Decoded(s).Some? && IsHigh(s[0]) && DecodedFirst(s).Some?
    requires IsHigh(DecodedFirst(s).value.0) && DecodedFirst(s).value.1 <= HighRun(s)
    requires var n := DecodedFirst(s).value.1;
             && IsByteString(Allowed(s, charIsSigned)) && IsByteString(Allowed(s[n..], charIsSigned))
             && Decoded(s[n..]).Some?
             && Decoded(Allowed(s[n..], charIsSigned)) == Some(Allowed(Decoded(s[n..]).value, charIsSigned))
    ensures Decoded(Allowed(s, charIsSigned)) == Some(Allowed(Decoded(s).value, charIsSigned))
  {
    hide Allowed, HighRun, Decoded, DecodedFirst;
    var (c, n) := DecodedFirst(s).value;
    var rest := Allowed(s[n..], charIsSigned);
    DecodedUnfolds(s);
    AllowedOfHigh(s[..n], s[n..], charIsSigned);
    assert s == s[..n] + s[n..];
    AllowedOfCons(c, Decoded(s[n..]).value, charIsSigned);
    if charIsSigned {
      assert "" + rest == rest;
      assert "" + Allowed(Decoded(s[n..]).value, charIsSigned) == Allowed(Decoded(s[n..]).value, charIsSigned);
    } else {
      var t := s[..n] + rest;
      assert t[..n] == s[..n] && t[n..] == rest;
      FirstOfSamePrefix(s, t, n);
      DecodedUnfolds(t);
    }
  }

  lemma {:induction false} AllowedOfHigh(a: string, b: string, charIsSigned: bool)
    requires forall i :: 0 <= i < |a| ==> IsHigh(a[i])
    ensures Allowed(a + b, charIsSigned) == (if charIsSigned then "" else a) + Allowed(b, charIsSigned)
    decreases |a|
  {
    hide Allowed;
    if a == "" {
      assert a + b == b;
    } else {
      AllowedOfHigh(a[1..], b, charIsSigned);
      AllowedOfCons(a[0], a[1..] + b, charIsSigned);
      assert a + b == [a[0]] + (a[1..] + b);
    }
  }

  /** RemoveInvalidXmlCharacters removes exactly the characters that XML forbids, if and only if
      the test is right for the characters beyond ASCII: where char is signed it drops them all,
      and where it is not it keeps U+FFFE and U+FFFF. */
  lemma RemovesForbiddenExactly(s: string, charIsSigned: bool)
    requires IsByteString(s) && Decoded(s).Some?
    ensures IsByteString(Allowed(s, charIsSigned))
    ensures Decoded(Allowed(s, charIsSigned)) == Some(CharsOf(Decoded(s).value))
            <==> TestedRight(Decoded(s).value, charIsSigned)
  {
    DecodedAllowed(s, charIsSigned);
    TestedRightExactly(Decoded(s).value, charIsSigned);
  }

  lemma RemovedExactly(s: string, charIsSigned: bool)
    requires IsByteString(s)
    ensures IsByteString(Allowed(s, charIsSigned))
    ensures Decoded(s).Some? ==>
              (Decoded(Allowed(s, charIsSigned)) == Some(CharsOf(Decoded(s).value))
               <==> TestedRight(Decoded(s).value, charIsSigned))
  {
    hide Decoded, Allowed, CharsOf, TestedRight;
    AllowedIsBytes(s, charIsSigned);
    if Decoded(s).Some? {
      RemovesForbiddenExactly(s, charIsSigned);
    }
  }

  method RemoveInvalidXmlCharacters(str: string, charIsSigned: bool) returns (output: string)
    requires IsByteString(str)
    ensures output == Allowed(str, charIsSigned) && IsByteString(output)
    ensures Decoded(str).Some? ==>
              (Decoded(output) == Some(CharsOf(Decoded(str).value)) <==> TestedRight(Decoded(str).value, charIsSigned))
  {
    hide Decoded, CharsOf, TestedRight;
    output := "";
    for i := 0 to |str|
      invariant output + Allowed(str[i..], charIsSigned) == Allowed(str, charIsSigned)
    {
      ghost var rest := str[i..];
      assert rest[0] == str[i] && rest[1..] == str[i + 1..];
      BytesAreKept(str[i], charIsSigned);
      if IsValidXmlCharacter(str[i], charIsSigned) {
        output := output + [str[i]];
      }
    }
    assert str[|str|..] == "";
    RemovedExactly(str, charIsSigned);
  }

  /** Under the same condition an attribute value reads back as the characters that XML allows. */
  lemma AttributeReadsBackExactly(s: string, charIsSigned: bool)
    requires IsByteString(s) && Decoded(s).Some?
    ensures IsByteString(Escaped(s, true, charIsSigned))
    ensures AttributeValue(Escaped(s, true, charIsSigned)) == Some(CharsOf(Decoded(s).value))
            <==> TestedRight(Decoded(s).value, charIsSigned)
  {
    hide Decoded, Allowed, CharsOf, TestedRight;
    AttributeContent(s, charIsSigned);
    DecodedAllowed(s, charIsSigned);
    TestedRightExactly(Decoded(s).value, charIsSigned);
  }

  /** Normalising the line ends of what is kept gives what XML allows exactly if the test is right
      and there is no carriage return. */
  lemma NormalizedAllowedExactly(t: string, charIsSigned: bool)
    ensures AllChars(Allowed(t, charIsSigned)) && NormalizeLineEnds(Allowed(t, charIsSigned)) == CharsOf(t)
            <==> TestedRight(t, charIsSigned) && !HasReturn(t)
  {
    hide Allowed, CharsOf, TestedRight;
    TestedRightExactly(t, charIsSigned);
    ReturnsStay(t, charIsSigned);
    NormalizeChangesReturns(Allowed(t, charIsSigned));
  }

  /** Text reads back as the characters that XML allows exactly if there is no carriage return,
      either. */
  lemma TextReadsBackExactly(s: string, charIsSigned: bool)
    requires IsByteString(s) && Decoded(s).Some?
    ensures IsByteString(Escaped(s, false, charIsSigned))
    ensures Content(Escaped(s, false, charIsSigned)) == Some(CharsOf(Decoded(s).value))
            <==> TestedRight(Decoded(s).value, charIsSigned) && !HasReturn(Decoded(s).value)
  {
    hide Decoded, Allowed, CharsOf, TestedRight, HasReturn;
    TextContent(s, charIsSigned);
    DecodedAllowed(s, charIsSigned);
    NormalizedAllowedExactly(Decoded(s).value, charIsSigned);
  }

  /** And so does the section that the report writes for the detail of a failure. */
  lemma DetailReadsBackExactly(detail: string, charIsSigned: bool)
    requires IsByteString(detail) && Decoded(detail).Some?
    ensures IsByteString(Allowed(detail, charIsSigned)) && IsByteString(Section(Allowed(detail, charIsSigned)))
    ensures Content(Section(Allowed(detail, charIsSigned))) == Some(CharsOf(Decoded(detail).value))
            <==> TestedRight(Decoded(detail).value, charIsSigned) && !HasReturn(Decoded(detail).value)
  {
    hide Decoded, Allowed, CharsOf, TestedRight, HasReturn;
    DecodedAllowed(detail, charIsSigned);
    SectionContent(Allowed(detail, charIsSigned));
    NormalizedAllowedExactly(Decoded(detail).value, charIsSigned);
  }
}
