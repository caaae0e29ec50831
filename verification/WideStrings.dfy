/** UTF-8 (section 3 of RFC 3629) with its whole range of 21 bits, and UTF-16 (section 2 of
    RFC 2781), both lenient about lone surrogates. */
module Unicode {
  import opened Options
  import opened Bytes

  type Utf16Unit = u: int | 0 <= u < 0x10000
  type CodePoint = v: int | 0 <= v < 0x200000

  predicate IsContinuation(b: Byte) { 0x80 <= b < 0xC0 }

  function Payload(b: Byte): (p: int)
    requires IsContinuation(b)
    ensures 0 <= p < 0x40
  {
    b as int - 0x80
  }

  /** Reads one code point in its shortest form, and how many bytes it takes. */
  function DecodeFirst(b: seq<Byte>): (first: Option<(CodePoint, nat)>)
    ensures first.Some? ==> 0 < first.value.1 <= |b|
  {
    if b == [] then None
    else if b[0] < 0x80 then Some((b[0], 1))
    else if 0xC0 <= b[0] < 0xE0 then
      if |b| < 2 || !IsContinuation(b[1]) then None
      else AtLeast(0x80, (b[0] as int - 0xC0) * 0x40 + Payload(b[1]), 2)
    else if 0xE0 <= b[0] < 0xF0 then
      if |b| < 3 || !IsContinuation(b[1]) || !IsContinuation(b[2]) then None
      else AtLeast(0x800, (b[0] as int - 0xE0) * 0x1000 + Payload(b[1]) * 0x40 + Payload(b[2]), 3)
    else if 0xF0 <= b[0] < 0xF8 then
      if |b| < 4 || !IsContinuation(b[1]) || !IsContinuation(b[2]) || !IsContinuation(b[3]) then None
      else
        AtLeast(0x10000,
                (b[0] as int - 0xF0) * 0x40000 + Payload(b[1]) * 0x1000 + Payload(b[2]) * 0x40 + Payload(b[3]), 4)
    else None
  }

  /** Longer forms of smaller code points are rejected. */
  function AtLeast(least: CodePoint, v: CodePoint, n: nat): Option<(CodePoint, nat)> {
    if v < least then None else Some((v, n))
  }

  function DecodeUtf8(b: seq<Byte>): Option<seq<CodePoint>>
    decreases |b|
  {
    if b == [] then Some([])
    else
      match DecodeFirst(b)
      case None => None
      case Some((v, n)) =>
        match DecodeUtf8(b[n..])
        case None => None
        case Some(rest) => Some([v] + rest)
  }

  /** Code points as UTF-16. */
  function EncodeUtf16(vs: seq<CodePoint>): seq<int> {
    if vs == [] then []
    else (if vs[0] < 0x10000 then [vs[0]]
          else [0xD800 + (vs[0] - 0x10000) / 0x400, 0xDC00 + (vs[0] - 0x10000) % 0x400])
         + EncodeUtf16(vs[1..])
  }

  /** The decoding of well-formed UTF-16, by the steps of section 2.2 of RFC 2781. */
  function DecodeUtf16(s: seq<Utf16Unit>): Option<seq<CodePoint>>
    decreases |s|
  {
    if s == [] then Some([])
    else if s[0] < 0xD800 || s[0] > 0xDFFF then
      match DecodeUtf16(s[1..])
      case None => None
      case Some(rest) => Some([s[0]] + rest)
    else if s[0] > 0xDBFF || |s| < 2 || s[1] < 0xDC00 || s[1] > 0xDFFF then None
    else
      match DecodeUtf16(s[2..])
      case None => None
      case Some(rest) => Some([(s[0] as int - 0xD800) * 0x400 + (s[1] as int - 0xDC00) + 0x10000] + rest)
  }
}

/** Google Test's conversion of wide strings, whose characters have two or four bytes and are
    given by their unsigned values. The operations on bits are written as arithmetic. */
module WideStrings {
  import opened Options
  import opened Bytes
  import opened Unicode

  const kMaxCodePoint1 := 0x7F
  const kMaxCodePoint2 := 0x7FF
  const kMaxCodePoint3 := 0xFFFF
  const kMaxCodePoint4 := 0x1FFFFF

  type UInt32 = x: int | 0 <= x < 0x1_0000_0000

  /** The six lowest bits, and what is left of `bits` without them. */
  method ChopLowBits(bits: UInt32) returns (lowBits: UInt32, rest: UInt32)
    ensures lowBits == bits % 0x40 && rest == bits / 0x40
  {
    lowBits := bits % 0x40;
    rest := bits / 0x40;
  }

  /** The bytes of a code point, by the table of section 3 of RFC 3629. */
  ghost function Utf8(v: CodePoint): seq<Byte> {
    if v < 0x80 then [v]
    else if v < 0x800 then [0xC0 + v / 0x40, 0x80 + v % 0x40]
    else if v < 0x10000 then [0xE0 + v / 0x1000, 0x80 + v / 0x40 % 0x40, 0x80 + v % 0x40]
    else [0xF0 + v / 0x40000, 0x80 + v / 0x1000 % 0x40, 0x80 + v / 0x40 % 0x40, 0x80 + v % 0x40]
  }

  /** The C string in a buffer. */
  function UpToNul(s: seq<Byte>): seq<Byte> {
    if s == [] || s[0] == 0 then [] else [s[0]] + UpToNul(s[1..])
  }

  lemma {:induction false} UpToNulTakes(s: seq<Byte>, n: nat)
    requires n < |s| && s[n] == 0 && forall i :: 0 <= i < n ==> s[i] != 0
    ensures UpToNul(s) == s[..n]
    decreases n
  {
    if n > 0 {
      UpToNulTakes(s[1..], n - 1);
      assert s[..n] == [s[0]] + s[1..][..n - 1];
    }
  }

  function AsciiBytes(s: string): seq<Byte> {
    seq(|s|, i requires 0 <= i < |s| => s[i] as int % 0x100)
  }

  ghost function InvalidMessage(codePoint: UInt32): seq<Byte> {
    AsciiBytes("(Invalid Unicode 0x" + FormatHexInt(codePoint) + ")")
  }

  /** What the comment announces: Unicode code points in UTF-8, and a message for all others. */
  ghost function Announced(codePoint: UInt32): seq<Byte> {
    if codePoint <= 0x10FFFF then Utf8(codePoint) else InvalidMessage(codePoint)
  }

  /** What comes out: nothing for NUL, and four bytes for any code point of 21 bits. */
  ghost function Encoded(codePoint: UInt32): seq<Byte> {
    if codePoint == 0 then []
    else if codePoint <= kMaxCodePoint4 then Utf8(codePoint)
    else InvalidMessage(codePoint)
  }

  /** The two agree exactly on the code points from 1 to 0x10FFFF, and beyond 21 bits. */
  lemma EncodedAsAnnouncedExactly(codePoint: UInt32)
    ensures Encoded(codePoint) == Announced(codePoint)
            <==> 0 < codePoint <= 0x10FFFF || codePoint > 0x1FFFFF
  {
    if 0x10FFFF < codePoint <= kMaxCodePoint4 {
      var digits := FormatHexInt(codePoint);
      assert InvalidMessage(codePoint)[0] == '(' as int;
      assert Encoded(codePoint)[0] >= 0xF0;
    }
  }

  lemma ChoppingDivides(v: CodePoint)
    ensures v / 0x40 / 0x40 == v / 0x1000 && v / 0x40 / 0x40 / 0x40 == v / 0x1000 / 0x40 == v / 0x40000
  {
  }

  lemma Utf8HasNoNul(v: CodePoint)
    requires v != 0
    ensures forall i :: 0 <= i < |Utf8(v)| ==> Utf8(v)[i] != 0
  {
  }

  method CodePointToUtf8(codePoint: UInt32) returns (s: seq<Byte>)
    ensures s == Encoded(codePoint)
  {
    if codePoint > kMaxCodePoint4 {
      return AsciiBytes("(Invalid Unicode 0x" + FormatHexInt(codePoint) + ")");
    }
    var str := new Byte[5];
    ghost var bytes := Utf8(codePoint);
    ChoppingDivides(codePoint);
    var rest := codePoint;
    var low: UInt32;
    if codePoint <= kMaxCodePoint1 {
      str[1] := 0;
      str[0] := rest;
    } else if codePoint <= kMaxCodePoint2 {
      str[2] := 0;
      low, rest := ChopLowBits(rest);
      str[1] := 0x80 + low;
      str[0] := 0xC0 + rest;
    } else if codePoint <= kMaxCodePoint3 {
      str[3] := 0;
      low, rest := ChopLowBits(rest);
      str[2] := 0x80 + low;
      low, rest := ChopLowBits(rest);
      str[1] := 0x80 + low;
      str[0] := 0xE0 + rest;
    } else {
      str[4] := 0;
      low, rest := ChopLowBits(rest);
      str[3] := 0x80 + low;
      low, rest := ChopLowBits(rest);
      str[2] := 0x80 + low;
      low, rest := ChopLowBits(rest);
      str[1] := 0x80 + low;
      str[0] := 0xF0 + rest;
    }
    assert str[..|bytes|] == bytes && str[|bytes|] == 0;
    s := UpToNul(str[..]);
    if codePoint != 0 {
      Utf8HasNoNul(codePoint);
      UpToNulTakes(str[..], |bytes|);
    }
  }

  /** Decoding undoes encoding, whatever follows, so the encoding is also the shortest. */
  lemma DecodeFirstOfUtf8(v: CodePoint, rest: seq<Byte>)
    ensures DecodeFirst(Utf8(v) + rest) == Some((v, |Utf8(v)|))
  {
    var t := Utf8(v) + rest;
    if v < 0x80 {
      assert t[0] == v;
    } else if v < 0x800 {
      assert t[0] == 0xC0 + v / 0x40 && t[1] == 0x80 + v % 0x40;
    } else if v < 0x10000 {
      assert t[0] == 0xE0 + v / 0x1000 && t[1] == 0x80 + v / 0x40 % 0x40 && t[2] == 0x80 + v % 0x40;
      assert v / 0x1000 == v / 0x40 / 0x40;
    } else {
      assert t[0] == 0xF0 + v / 0x40000 && t[1] == 0x80 + v / 0x1000 % 0x40;
      assert t[2] == 0x80 + v / 0x40 % 0x40 && t[3] == 0x80 + v % 0x40;
      assert v / 0x1000 == v / 0x40 / 0x40 && v / 0x40000 == v / 0x1000 / 0x40;
    }
  }

  lemma DigitsBase64(w: nat, x: nat, y: nat, z: nat)
    requires x < 0x40 && y < 0x40 && z < 0x40
    ensures var v := w * 0x40000 + x * 0x1000 + y * 0x40 + z;
            && v / 0x40000 == w && v / 0x1000 == w * 0x40 + x && v / 0x40 == w * 0x1000 + x * 0x40 + y
            && v / 0x1000 % 0x40 == x && v / 0x40 % 0x40 == y && v % 0x40 == z
  {
  }

  lemma Utf8OfDigits(w: nat, x: nat, y: nat, z: nat)
    requires w < 8 && x < 0x40 && y < 0x40 && z < 0x40
    ensures var v: CodePoint := w * 0x40000 + x * 0x1000 + y * 0x40 + z;
            && (0x80 <= v < 0x800 ==> Utf8(v) == [0xC0 + y, 0x80 + z])
            && (0x800 <= v < 0x10000 ==> Utf8(v) == [0xE0 + x, 0x80 + y, 0x80 + z])
            && (0x10000 <= v ==> Utf8(v) == [0xF0 + w, 0x80 + x, 0x80 + y, 0x80 + z])
  {
    DigitsBase64(w, x, y, z);
  }

  /** What is decoded was encoded: the decoder takes no other form of a code point. */
  lemma DecodeFirstReadsOnlyUtf8(b: seq<Byte>)
    requires DecodeFirst(b).Some?
    ensures var (v, n) := DecodeFirst(b).value; n <= |b| && b[..n] == Utf8(v)
  {
    hide Utf8;
    var (v, n) := DecodeFirst(b).value;
    if n == 1 {
      Utf8OfAscii(v);
    } else if n == 2 {
      Utf8OfDigits(0, 0, b[0] - 0xC0, b[1] - 0x80);
    } else if n == 3 {
      Utf8OfDigits(0, b[0] - 0xE0, b[1] - 0x80, b[2] - 0x80);
    } else {
      Utf8OfDigits(b[0] - 0xF0, b[1] - 0x80, b[2] - 0x80, b[3] - 0x80);
    }
  }

  lemma Utf8OfAscii(v: CodePoint)
    requires v < 0x80
    ensures Utf8(v) == [v]
  {
  }

  /** Code points without surrogates, up to 0x10FFFF. */
  ghost predicate AreScalars(vs: seq<CodePoint>) {
    forall i :: 0 <= i < |vs| ==> 0 <= vs[i] <= 0xD7FF || 0xE000 <= vs[i] <= 0x10FFFF
  }

  lemma {:induction false} EncodedUtf16IsDecoded(vs: seq<CodePoint>, s: seq<Utf16Unit>)
    requires AreScalars(vs) && EncodeUtf16(vs) == s
    ensures DecodeUtf16(s) == Some(vs)
    decreases |vs|
  {
    if vs != [] {
      var n := if vs[0] < 0x10000 then 1 else 2;
      assert s[n..] == EncodeUtf16(vs[1..]);
      EncodedUtf16IsDecoded(vs[1..], s[n..]);
      assert vs == [vs[0]] + vs[1..];
    }
  }

  /** The first code point that is read was written by the first one or two units. */
  lemma FirstUtf16WasEncoded(s: seq<Utf16Unit>) returns (v: CodePoint, n: nat)
    requires s != [] && DecodeUtf16(s).Some?
    ensures 0 < n <= |s| && DecodeUtf16(s[n..]).Some? && DecodeUtf16(s).value == [v] + DecodeUtf16(s[n..]).value
    ensures AreScalars([v]) && forall vs :: EncodeUtf16([v] + vs) == s[..n] + EncodeUtf16(vs)
  {
    v, n := DecodeUtf16(s).value[0], if s[0] < 0xD800 || s[0] > 0xDFFF then 1 else 2;
    assert s[..n] == if n == 1 then [s[0]] else [s[0], s[1]];
  }

  lemma NoUtf16()
    ensures DecodeUtf16([]) == Some([]) && EncodeUtf16([]) == []
  {
  }

  lemma {:induction false} DecodedUtf16WasEncoded(s: seq<Utf16Unit>)
    requires DecodeUtf16(s).Some?
    ensures var vs := DecodeUtf16(s).value; AreScalars(vs) && EncodeUtf16(vs) == s
    decreases |s|
  {
    hide DecodeUtf16, EncodeUtf16;
    NoUtf16();
    if s != [] {
      var v, n := FirstUtf16WasEncoded(s);
      DecodedUtf16WasEncoded(s[n..]);
      assert s == s[..n] + s[n..];
    }
  }

  /** The reader of UTF-16 takes what is well formed, and nothing else. */
  lemma DecodeUtf16Exactly(s: seq<Utf16Unit>, vs: seq<CodePoint>)
    ensures DecodeUtf16(s) == Some(vs) <==> AreScalars(vs) && EncodeUtf16(vs) == s
  {
    if DecodeUtf16(s) == Some(vs) {
      DecodedUtf16WasEncoded(s);
    }
    if AreScalars(vs) && EncodeUtf16(vs) == s {
      EncodedUtf16IsDecoded(vs, s);
    }
  }

  /** A wide character of `size` bytes. */
  predicate IsWide(u: UInt32, size: nat) { size == 2 ==> u < 0x10000 }

  ghost predicate AreWide(str: seq<UInt32>, size: nat) {
    size in {2, 4} && forall i :: 0 <= i < |str| ==> IsWide(str[i], size)
  }

  predicate IsUtf16SurrogatePair(first: UInt32, second: UInt32, size: nat) {
    size == 2 && first - first % 0x400 == 0xD800 && second - second % 0x400 == 0xDC00
  }

  function CreateCodePointFromUtf16SurrogatePair(first: UInt32, second: UInt32, size: nat): UInt32 {
    if size == 2 then first % 0x400 * 0x400 + second % 0x400 + 0x10000 else first
  }

  /** The code points of a string: surrogate pairs are combined, all else stands for itself. */
  ghost function CodePoints(s: seq<UInt32>, size: nat): seq<UInt32>
    decreases |s|
  {
    if s == [] then []
    else if |s| >= 2 && IsUtf16SurrogatePair(s[0], s[1], size) then
      [CreateCodePointFromUtf16SurrogatePair(s[0], s[1], size)] + CodePoints(s[2..], size)
    else [s[0]] + CodePoints(s[1..], size)
  }

  ghost function EncodedAll(vs: seq<UInt32>): seq<Byte> {
    if vs == [] then [] else Encoded(vs[0]) + EncodedAll(vs[1..])
  }

  /** Reads a character of a NUL-terminated string; the terminator may be read, nothing after it. */
  function At(str: seq<UInt32>, i: nat): UInt32
    requires i <= |str|
  {
    if i == |str| then 0 else str[i]
  }

  ghost predicate NulFree(str: seq<UInt32>) {
    forall i :: 0 <= i < |str| ==> str[i] != 0
  }

  /** What `numChars` leaves of a string; -1 stands for no limit. */
  ghost function Limited(str: seq<UInt32>, numChars: int): (limited: seq<UInt32>)
    ensures limited <= str
    ensures |limited| == if numChars == -1 then |str| else if 0 <= numChars < |str| then numChars
                         else if numChars >= 0 then |str| else 0
  {
    if numChars == -1 || numChars > |str| then str
    else if numChars < 0 then []
    else str[..numChars]
  }

  lemma CodePointsUnfold(s: seq<UInt32>, size: nat)
    requires s != []
    ensures CodePoints(s, size)
         == if |s| >= 2 && IsUtf16SurrogatePair(s[0], s[1], size)
            then [CreateCodePointFromUtf16SurrogatePair(s[0], s[1], size)] + CodePoints(s[2..], size)
            else [s[0]] + CodePoints(s[1..], size)
  {
  }

  lemma EncodedAllOfCons(v: UInt32, vs: seq<UInt32>)
    ensures EncodedAll([v] + vs) == Encoded(v) + EncodedAll(vs)
  {
  }

  lemma NoPairWithNul(size: nat)
    ensures forall first: UInt32 :: !IsUtf16SurrogatePair(first, 0, size)
  {
  }

  lemma NothingToEncode(size: nat)
    ensures EncodedAll(CodePoints([], size)) == []
  {
  }

  method WideStringToUtf8(str: seq<UInt32>, numChars: int, size: nat) returns (stream: seq<Byte>)
    requires NulFree(str) && AreWide(str, size)
    ensures stream == EncodedAll(CodePoints(Limited(str, numChars), size))
  {
    hide Encoded, EncodedAll, CodePoints, IsUtf16SurrogatePair, CreateCodePointFromUtf16SurrogatePair;
    NothingToEncode(size);
    assert forall first: UInt32 :: !IsUtf16SurrogatePair(first, 0, size) by { NoPairWithNul(size); }
    ghost var limited := Limited(str, numChars);
    var n := if numChars == -1 then |str| else numChars;
    stream := [];
    var i := 0;
    while i < n
      invariant 0 <= i <= |limited|
      invariant stream + EncodedAll(CodePoints(limited[i..], size)) == EncodedAll(CodePoints(limited, size))
      decreases |str| - i
    {
      ghost var rest := limited[i..];
      if At(str, i) == 0 {
        break;
      }
      CodePointsUnfold(rest, size);
      var codePoint: UInt32;
      if i + 1 < n && IsUtf16SurrogatePair(At(str, i), At(str, i + 1), size) {
        codePoint := CreateCodePointFromUtf16SurrogatePair(At(str, i), At(str, i + 1), size);
        i := i + 1;
        assert rest[2..] == limited[i + 1..];
      } else {
        codePoint := At(str, i);
        assert rest[1..] == limited[i + 1..];
      }
      assert CodePoints(rest, size) == [codePoint] + CodePoints(limited[i + 1..], size);
      EncodedAllOfCons(codePoint, CodePoints(limited[i + 1..], size));
      var bytes := CodePointToUtf8(codePoint);
      stream := stream + bytes;
      i := i + 1;
    }
    assert limited[i..] == [];
  }

  ghost predicate AreCodePoints(vs: seq<UInt32>) {
    forall i :: 0 <= i < |vs| ==> 0 < vs[i] <= 0x1FFFFF
  }

  /** Decoding the bytes gives the code points back. */
  lemma {:induction false} DecodeEncodedUtf8(vs: seq<UInt32>)
    requires AreCodePoints(vs)
    ensures DecodeUtf8(EncodedAll(vs)) == Some(vs)
    decreases |vs|
  {
    hide DecodeUtf8, DecodeFirst, EncodedAll, Utf8;
    NothingIsDecoded();
    if vs != [] {
      DecodeEncodedUtf8(vs[1..]);
      DecodeFirstOfUtf8(vs[0], EncodedAll(vs[1..]));
      EncodedAllOfCons(vs[0], vs[1..]);
      DecodeUtf8OfConcat(vs[0], EncodedAll(vs[1..]));
      assert [vs[0]] + vs[1..] == vs;
    }
  }

  lemma NothingIsDecoded()
    ensures DecodeUtf8([]) == Some([]) && EncodedAll([]) == []
  {
  }

  lemma DecodeUtf8OfConcat(v: CodePoint, rest: seq<Byte>)
    requires DecodeUtf8(rest).Some?
    ensures DecodeUtf8(Utf8(v) + rest) == Some([v] + DecodeUtf8(rest).value)
  {
    hide Utf8, DecodeFirst;
    DecodeFirstOfUtf8(v, rest);
    assert Utf8(v) != [] by { Utf8IsSomething(v); }
    assert (Utf8(v) + rest)[|Utf8(v)|..] == rest;
  }

  lemma Utf8IsSomething(v: CodePoint)
    ensures Utf8(v) != []
  {
  }

  /** With 16 bits, encoding the code points of any string as UTF-16 gives the string back. */
  lemma {:induction false} EncodeCodePoints(s: seq<UInt32>)
    requires AreWide(s, 2) && NulFree(s)
    ensures AreCodePoints(CodePoints(s, 2)) && EncodeUtf16(CodePoints(s, 2)) == s
    decreases |s|
  {
    if s != [] {
      if |s| >= 2 && IsUtf16SurrogatePair(s[0], s[1], 2) {
        EncodeCodePoints(s[2..]);
        assert s == [s[0], s[1]] + s[2..];
      } else {
        EncodeCodePoints(s[1..]);
      }
    }
  }

  /** The round trip with 16 bits: no NUL-free string, well formed or not, loses anything. */
  lemma Utf8RoundTrip(s: seq<UInt32>)
    requires AreWide(s, 2) && NulFree(s)
    ensures var decoded := DecodeUtf8(EncodedAll(CodePoints(s, 2)));
            decoded.Some? && EncodeUtf16(decoded.value) == s
  {
    EncodeCodePoints(s);
    DecodeEncodedUtf8(CodePoints(s, 2));
  }

  /** With 32 bits every character is a code point, and the bytes give the string back exactly if
      all of them have 21 bits. */
  lemma Utf32RoundTripExactly(s: seq<UInt32>)
    requires NulFree(s)
    ensures DecodeUtf8(EncodedAll(CodePoints(s, 4))) == Some(s) <==> AreCodePoints(s)
  {
    NothingIsCombined(s);
    if AreCodePoints(s) {
      DecodeEncodedUtf8(s);
    }
  }

  lemma {:induction false} NothingIsCombined(s: seq<UInt32>)
    ensures CodePoints(s, 4) == s
    decreases |s|
  {
    if s != [] {
      NothingIsCombined(s[1..]);
    }
  }

  /** Well-formed UTF-16 is converted code point by code point. */
  lemma {:induction false} WellFormedCodePoints(s: seq<Utf16Unit>)
    ensures DecodeUtf16(s).Some? ==> CodePoints(s, 2) == DecodeUtf16(s).value
    decreases |s|
  {
    if s != [] {
      WellFormedCodePoints(s[1..]);
      if |s| >= 2 {
        WellFormedCodePoints(s[2..]);
      }
    }
  }
}
