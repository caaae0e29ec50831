/** NUL-terminated strings: a string stands for its characters before the terminator. */
module CStrings {

  ghost predicate NulFree(s: string) {
    forall i :: 0 <= i < |s| ==> s[i] != '\0'
  }

  /** Reads a character; the terminator may be read, nothing after it. */
  function At(s: string, i: nat): (c: char)
    requires i <= |s|
    ensures NulFree(s) ==> (c == '\0' <==> i == |s|)
  {
    if i == |s| then '\0' else s[i]
  }

  predicate IsInSet(ch: char, str: string) {
    ch != '\0' && ch in str
  }
}

/** What the patterns of the simple regular expression engine are, and what they match. */
module SimpleRegexLanguage {
  import opened Options
  import opened CStrings

  predicate IsAsciiDigit(ch: char) { '0' <= ch <= '9' }

  predicate IsAsciiPunct(ch: char) { IsInSet(ch, "^-!\"#$%&'()*+,./:;<=>?@[\\]_`{|}~") }

  predicate IsRepeat(ch: char) { IsInSet(ch, "?*+") }

  predicate IsAsciiWhiteSpace(ch: char) { IsInSet(ch, " \U{0C}\n\r\t\U{0B}") }

  predicate IsAsciiWordChar(ch: char) {
    'a' <= ch <= 'z' || 'A' <= ch <= 'Z' || '0' <= ch <= '9' || ch == '_'
  }

  predicate IsValidEscape(c: char) { IsAsciiPunct(c) || IsInSet(c, "dDfnrsStvwW") }

  predicate AtomMatchesChar(escaped: bool, patternChar: char, ch: char) {
    if escaped then
      match patternChar
      case 'd' => IsAsciiDigit(ch)
      case 'D' => !IsAsciiDigit(ch)
      case 'f' => ch == '\U{0C}'
      case 'n' => ch == '\n'
      case 'r' => ch == '\r'
      case 's' => IsAsciiWhiteSpace(ch)
      case 'S' => !IsAsciiWhiteSpace(ch)
      case 't' => ch == '\t'
      case 'v' => ch == '\U{0B}'
      case 'w' => IsAsciiWordChar(ch)
      case 'W' => !IsAsciiWordChar(ch)
      case _ => IsAsciiPunct(patternChar) && patternChar == ch
    else (patternChar == '.' && ch != '\n') || patternChar == ch
  }

  // The character classes by the numbers of their characters.

  /** The ASCII characters that are neither letters nor digits, blanks or control characters. */
  lemma PunctuationByNumber(c: char)
    ensures IsAsciiPunct(c)
            <==> 33 <= c as int <= 47 || 58 <= c as int <= 64 || 91 <= c as int <= 96 || 123 <= c as int <= 126
  {
  }

  /** A backslash may come before punctuation and before D, S, W, d, f, n, r, s, t, v and w. */
  lemma EscapesByNumber(c: char)
    ensures IsValidEscape(c)
            <==> || 33 <= c as int <= 47 || 58 <= c as int <= 64 || 91 <= c as int <= 96 || 123 <= c as int <= 126
                 || c as int in {68, 83, 87, 100, 102, 110, 114, 115, 116, 118, 119}
  {
    PunctuationByNumber(c);
    hide IsAsciiPunct;
  }

  /** A dot matches everything but a line feed, any other character only itself. */
  lemma PlainAtomMatchesExactly(c: char, ch: char)
    ensures AtomMatchesChar(false, c, ch) <==> if c as int == 46 then ch as int != 10 else ch == c
  {
  }

  /** An escape that names a class or a control character matches just these; before punctuation
      the backslash takes away its meaning; anything else matches nothing. */
  lemma EscapedAtomMatchesExactly(c: char, ch: char)
    ensures var n := ch as int;
            AtomMatchesChar(true, c, ch)
            <==> match c as int
                 case 100 /* d */ => 48 <= n <= 57
                 case 68  /* D */ => n < 48 || n > 57
                 case 102 /* f */ => n == 12
                 case 110 /* n */ => n == 10
                 case 114 /* r */ => n == 13
                 case 115 /* s */ => 9 <= n <= 13 || n == 32
                 case 83  /* S */ => n < 9 || 13 < n < 32 || n > 32
                 case 116 /* t */ => n == 9
                 case 118 /* v */ => n == 11
                 case 119 /* w */ => 48 <= n <= 57 || 65 <= n <= 90 || n == 95 || 97 <= n <= 122
                 case 87  /* W */ => n < 48 || 57 < n < 65 || 90 < n < 95 || n == 96 || n > 122
                 case p => n == p && (33 <= p <= 47 || 58 <= p <= 64 || 91 <= p <= 96 || 123 <= p <= 126)
  {
    PunctuationByNumber(c);
    hide IsAsciiPunct;
  }

  /** An atom with how often it may occur. A pattern is a sequence of these, perhaps anchored
      at either end. */
  datatype Repeat = Once | AtMostOnce | AnyNumber | AtLeastOnce

  datatype Item = Item(escaped: bool, atom: char, repeat: Repeat)

  datatype Pattern = Pattern(anchoredAtStart: bool, items: seq<Item>, anchoredAtEnd: bool)

  /** `s` is a repetition of characters that match the atom, as often as the item allows. */
  ghost predicate InItem(item: Item, s: string) {
    && (item.repeat == Once ==> |s| == 1)
    && (item.repeat == AtMostOnce ==> |s| <= 1)
    && (item.repeat == AtLeastOnce ==> |s| >= 1)
    && forall i :: 0 <= i < |s| ==> AtomMatchesChar(item.escaped, item.atom, s[i])
  }

  /** `s` is a concatenation of strings in the languages of the items. */
  ghost predicate InLanguage(items: seq<Item>, s: string)
  {
    if items == [] then s == ""
    else exists k: nat :: k <= |s| && InItem(items[0], s[..k]) && InLanguage(items[1..], s[k..])
  }

  /** Some substring, respecting the anchors, is in the language. */
  ghost predicate MatchesSomewhere(p: Pattern, s: string) {
    exists i: nat, j: nat :: i <= j <= |s| && (p.anchoredAtStart ==> i == 0) && (p.anchoredAtEnd ==> j == |s|)
                             && InLanguage(p.items, s[i..j])
  }

  /** Some prefix is in the language; all of `s`, if anchored. */
  ghost predicate MatchesPrefix(items: seq<Item>, anchoredAtEnd: bool, s: string) {
    exists j: nat :: j <= |s| && (anchoredAtEnd ==> j == |s|) && InLanguage(items, s[..j])
  }

  // Reading patterns.

  /** Characters that stand for themselves (or, for the dot, for an atom). */
  predicate IsOrdinary(c: char) { c != '\0' && !IsInSet(c, "^$?*+()[]{}|\\") }

  /** Which characters repeat an atom, and which are atoms without a backslash: all but the
      brackets and ^ $ ? * + | and the backslash itself. */
  lemma SyntaxByNumber(c: char)
    ensures IsRepeat(c) <==> c as int in {42, 43, 63}
    ensures IsOrdinary(c) <==> c as int !in {0, 36, 40, 41, 42, 43, 63, 91, 92, 93, 94, 123, 124, 125}
  {
  }

  function RepeatOf(c: char): Repeat {
    if c == '?' then AtMostOnce else if c == '*' then AnyNumber else AtLeastOnce
  }

  /** Reads items up to an end anchor or the end, or fails. */
  function ParseItems(regex: string): Option<(seq<Item>, bool)>
    decreases |regex|, 0
  {
    if regex == "" then Some(([], false))
    else if regex == "$" then Some(([], true))
    else if regex[0] == '\\' then
      if |regex| >= 2 && IsValidEscape(regex[1]) then ParseAfterAtom(true, regex[1], regex[2..]) else None
    else if IsOrdinary(regex[0]) then ParseAfterAtom(false, regex[0], regex[1..])
    else None
  }

  function ParseAfterAtom(escaped: bool, c: char, rest: string): Option<(seq<Item>, bool)>
    decreases |rest|, 1
  {
    var repeated := rest != "" && IsRepeat(rest[0]);
    var item := Item(escaped, c, if repeated then RepeatOf(rest[0]) else Once);
    match ParseItems(if repeated then rest[1..] else rest)
    case None => None
    case Some((items, end)) => Some(([item] + items, end))
  }

  function Parse(regex: string): Option<Pattern> {
    var start := regex != "" && regex[0] == '^';
    match ParseItems(if start then regex[1..] else regex)
    case None => None
    case Some((items, end)) => Some(Pattern(start, items, end))
  }

  // The grammar, from the other side: how a pattern is written.

  ghost predicate WellFormedItem(item: Item) {
    if item.escaped then IsValidEscape(item.atom) else IsOrdinary(item.atom)
  }

  ghost predicate WellFormedItems(items: seq<Item>) {
    forall i :: 0 <= i < |items| ==> WellFormedItem(items[i])
  }

  function WriteRepeat(repeat: Repeat): string {
    match repeat case Once => "" case AtMostOnce => "?" case AnyNumber => "*" case AtLeastOnce => "+"
  }

  function WriteItem(item: Item): string {
    (if item.escaped then ['\\', item.atom] else [item.atom]) + WriteRepeat(item.repeat)
  }

  function WriteItems(items: seq<Item>, end: bool): string {
    if items == [] then (if end then "$" else "") else WriteItem(items[0]) + WriteItems(items[1..], end)
  }

  function Write(p: Pattern): string {
    (if p.anchoredAtStart then "^" else "") + WriteItems(p.items, p.anchoredAtEnd)
  }

  /** What is parsed is well formed and writes back to the same string. */
  lemma {:induction false} ParseItemsIsSound(regex: string)
    ensures ParseItems(regex).Some? ==>
              var (items, end) := ParseItems(regex).value; WellFormedItems(items) && WriteItems(items, end) == regex
    decreases |regex|
  {
    if ParseItems(regex).Some? && regex != "" && regex != "$" {
      var escaped := regex[0] == '\\';
      var n := if escaped then 2 else 1;
      var rest := regex[n..];
      assert ParseItems(regex) == ParseAfterAtom(escaped, regex[n - 1], rest);
      var tail := if rest != "" && IsRepeat(rest[0]) then rest[1..] else rest;
      var item := Item(escaped, regex[n - 1], if rest != "" && IsRepeat(rest[0]) then RepeatOf(rest[0]) else Once);
      assert ParseItems(tail).Some?;
      var (items, end) := ParseItems(tail).value;
      assert ParseItems(regex) == Some(([item] + items, end)) && WellFormedItem(item);
      hide ParseItems, ParseAfterAtom;
      ParseItemsIsSound(tail);
      assert WriteItem(item) + tail == regex;
      WriteItemsOfCons(item, items, end);
    }
  }

  lemma WriteItemsOfCons(item: Item, items: seq<Item>, end: bool)
    ensures WriteItems([item] + items, end) == WriteItem(item) + WriteItems(items, end)
    ensures WellFormedItem(item) && WellFormedItems(items) ==> WellFormedItems([item] + items)
  {
    assert ([item] + items)[1..] == items;
  }

  /** Every well-formed pattern is parsed back from the way it is written. */
  lemma {:induction false} ParseItemsIsComplete(items: seq<Item>, end: bool)
    requires WellFormedItems(items)
    ensures ParseItems(WriteItems(items, end)) == Some((items, end))
    decreases |items|
  {
    hide ParseItems, ParseAfterAtom, WriteItem, WriteItems, WriteRepeat;
    if items == [] {
      NoItemsAreRead(end);
    } else {
      var item, rest := items[0], items[1..];
      ParseItemsIsComplete(rest, end);
      WrittenStartIsNoRepeat(rest, end);
      assert WellFormedItem(item) && items == [item] + rest;
      WriteItemsOfCons(item, rest, end);
      RepeatIsRead(item, WriteItems(rest, end));
      ItemIsRead(item, WriteItems(rest, end));
    }
  }

  lemma NoItemsAreRead(end: bool)
    ensures ParseItems(WriteItems([], end)) == Some(([], end))
  {
  }

  lemma RepeatIsRead(item: Item, tail: string)
    requires ParseItems(tail).Some? && (tail != "" ==> !IsRepeat(tail[0]))
    ensures var (items, end) := ParseItems(tail).value;
            ParseAfterAtom(item.escaped, item.atom, WriteRepeat(item.repeat) + tail) == Some(([item] + items, end))
  {
    var rest := WriteRepeat(item.repeat) + tail;
    if item.repeat == Once {
      assert rest == tail;
    } else {
      assert IsRepeat(rest[0]) && RepeatOf(rest[0]) == item.repeat && rest[1..] == tail;
    }
  }

  lemma ItemIsRead(item: Item, tail: string)
    requires WellFormedItem(item)
    ensures ParseItems(WriteItem(item) + tail)
         == ParseAfterAtom(item.escaped, item.atom, WriteRepeat(item.repeat) + tail)
  {
    var regex := WriteItem(item) + tail;
    assert regex[0] != '$' && regex != "$";
    assert regex[if item.escaped then 2 else 1..] == WriteRepeat(item.repeat) + tail;
    hide ParseAfterAtom;
  }

  lemma WrittenStartIsNoRepeat(items: seq<Item>, end: bool)
    requires WellFormedItems(items)
    ensures var s := WriteItems(items, end); s != "" ==> !IsRepeat(s[0]) && s[0] != '^'
  {
    if items != [] {
      assert WellFormedItem(items[0]);
    }
  }

  /** The valid patterns are exactly those that can be written. */
  lemma ParseReadsExactlyTheWritten(regex: string)
    ensures Parse(regex).Some? <==> exists p: Pattern :: WellFormedItems(p.items) && Write(p) == regex
    ensures forall p: Pattern :: WellFormedItems(p.items) && Write(p) == regex ==> Parse(regex) == Some(p)
  {
    var start := regex != "" && regex[0] == '^';
    var tail := if start then regex[1..] else regex;
    if Parse(regex).Some? {
      ParseItemsIsSound(tail);
      assert Write(Parse(regex).value) == regex;
    }
    forall p: Pattern | WellFormedItems(p.items) && Write(p) == regex ensures Parse(regex) == Some(p) {
      ParseItemsIsComplete(p.items, p.anchoredAtEnd);
      WrittenStartIsNoRepeat(p.items, p.anchoredAtEnd);
      assert tail == WriteItems(p.items, p.anchoredAtEnd);
    }
  }
}

/** The engine itself. */
module SimpleRegex {
  import opened Options
  import opened CStrings
  import opened SimpleRegexLanguage

  /** The largest value of size_t. */
  const kSizeMax: nat := 0xFFFF_FFFF_FFFF_FFFF

  // How ValidateRegex sees the rest of the pattern.

  ghost predicate ValidRest(rest: string, prevRepeatable: bool) {
    if prevRepeatable && rest != "" && IsRepeat(rest[0]) then ParseItems(rest[1..]).Some?
    else ParseItems(rest).Some?
  }

  /** One step over an escape sequence. */
  lemma EscapeStep(rest: string, prevRepeatable: bool)
    requires |rest| >= 2 && rest[0] == '\\'
    ensures ValidRest(rest, prevRepeatable) <==> IsValidEscape(rest[1]) && ValidRest(rest[2..], true)
  {
    assert ParseItems(rest).Some? <==>
      IsValidEscape(rest[1]) && ParseAfterAtom(true, rest[1], rest[2..]).Some?;
  }

  /** One step over any other character. */
  lemma CharacterStep(rest: string, prevRepeatable: bool)
    requires NulFree(rest) && rest != "" && rest[0] != '\\'
    ensures var ch := rest[0];
            ValidRest(rest, prevRepeatable)
            <==> && ch != '^' && (ch == '$' ==> |rest| == 1) && !IsInSet(ch, "()[]{}|")
                 && (IsRepeat(ch) ==> prevRepeatable)
                 && ValidRest(rest[1..], !IsInSet(ch, "^$?*+"))
  {
    var ch := rest[0];
    if IsOrdinary(ch) {
      assert ParseItems(rest) == ParseAfterAtom(false, ch, rest[1..]);
    }
  }

  method ValidateRegex(regex: Option<string>) returns (valid: bool)
    requires regex.Some? ==> NulFree(regex.value)
    ensures valid <==> regex.Some? && Parse(regex.value).Some?
  {
    if regex == None {
      return false;
    }
    var re := regex.value;
    var isValid := true;
    var prevRepeatable := false;
    var i := 0;
    while At(re, i) != '\0'
      invariant 0 <= i <= |re|
      invariant i == 0 ==> isValid && !prevRepeatable
      invariant i > 0 ==> (Parse(re).Some? <==> isValid && ValidRest(re[i..], prevRepeatable))
      decreases |re| - i
    {
      ghost var rest := re[i..];
      if re[i] == '\\' {
        i := i + 1;
        if At(re, i) == '\0' {
          assert rest == "\\";
          return false;
        }
        EscapeStep(rest, prevRepeatable);
        assert rest[2..] == re[i + 1..];
        if !IsValidEscape(re[i]) {
          isValid := false;
        }
        prevRepeatable := true;
      } else {
        var ch := re[i];
        CharacterStep(rest, prevRepeatable);
        assert rest[1..] == re[i + 1..];
        if ch == '^' && i > 0 {
          isValid := false;
        } else if ch == '$' && At(re, i + 1) != '\0' {
          isValid := false;
        } else if IsInSet(ch, "()[]{}|") {
          isValid := false;
        } else if IsRepeat(ch) && !prevRepeatable {
          isValid := false;
        }
        prevRepeatable := !IsInSet(ch, "^$?*+");
      }
      i := i + 1;
    }
    return isValid;
  }

  // Matching.

  /** The item takes the first `k` characters and the rest of the pattern a prefix of the others. */
  ghost predicate MatchesAfter(item: Item, items: seq<Item>, end: bool, s: string, k: nat)
    requires k <= |s|
  {
    InItem(item, s[..k]) && MatchesPrefix(items, end, s[k..])
  }

  lemma NoItemsMatchNothing(end: bool, s: string)
    ensures MatchesPrefix([], end, s) <==> !end || s == ""
  {
    assert InLanguage([], s[..0]) && (InLanguage([], s[..|s|]) <==> s == "");
  }

  lemma ParseItemsOfEnd(regex: string)
    ensures regex == "" ==> ParseItems(regex) == Some(([], false))
    ensures regex != "" && regex[0] == '$' && ParseItems(regex).Some? ==> ParseItems(regex) == Some(([], true))
  {
  }

  lemma MatchesPrefixUnfolds(items: seq<Item>, end: bool, s: string)
    requires items != []
    ensures MatchesPrefix(items, end, s)
            <==> exists k: nat :: k <= |s| && MatchesAfter(items[0], items[1..], end, s, k)
  {
    if MatchesPrefix(items, end, s) {
      var j: nat :| j <= |s| && (end ==> j == |s|) && InLanguage(items, s[..j]);
      var w := s[..j];
      var k: nat :| k <= |w| && InItem(items[0], w[..k]) && InLanguage(items[1..], w[k..]);
      assert s[..j][..k] == s[..k] && s[..j][k..] == s[k..][..j - k];
      assert MatchesAfter(items[0], items[1..], end, s, k);
    }
    if k: nat :| k <= |s| && MatchesAfter(items[0], items[1..], end, s, k) {
      var j: nat :| j <= |s| - k && (end ==> j == |s| - k) && InLanguage(items[1..], s[k..][..j]);
      assert s[..k + j][..k] == s[..k] && s[..k + j][k..] == s[k..][..j];
      assert InLanguage(items, s[..k + j]);
    }
  }

  /** What ParseItems reads first, in the engine's terms. */
  lemma ParseItemsUnfolds(regex: string)
    requires NulFree(regex) && ParseItems(regex).Some? && regex != "" && regex[0] != '$'
    ensures var escaped := regex[0] == '\\';
            var re := if escaped then regex[1..] else regex;
            && |re| >= 1
            && var repeat := At(re, 1);
            var rest := if IsRepeat(repeat) then re[2..] else re[1..];
            && ParseItems(rest).Some?
            && ParseItems(regex).value
            == ([Item(escaped, re[0], if IsRepeat(repeat) then RepeatOf(repeat) else Once)] + ParseItems(rest).value.0,
                ParseItems(rest).value.1)
  {
    var escaped := regex[0] == '\\';
    var re := if escaped then regex[1..] else regex;
    assert ParseItems(regex) == ParseAfterAtom(escaped, re[0], re[1..]);
    if |re| >= 2 {
      assert re[1..][1..] == re[2..];
    }
  }

  /** True iff some number of repetitions of the atom, allowed by `repeat`, is followed by a
      match of the rest of the pattern. */
  method MatchRepetitionAndRegexAtHead(escaped: bool, c: char, repeat: char, regex: string, str: string)
    returns (found: bool)
    requires NulFree(regex) && NulFree(str) && |str| < kSizeMax
    requires IsRepeat(repeat) && ParseItems(regex).Some?
    ensures var (items, end) := ParseItems(regex).value;
            found <==> exists k: nat :: k <= |str|
                         && MatchesAfter(Item(escaped, c, RepeatOf(repeat)), items, end, str, k)
    decreases |regex|, 1
  {
    ghost var item := Item(escaped, c, RepeatOf(repeat));
    ghost var items, end := ParseItems(regex).value.0, ParseItems(regex).value.1;
    var minCount: nat := if repeat == '+' then 1 else 0;
    var maxCount: nat := if repeat == '?' then 1 else kSizeMax - 1;
    var i := 0;
    while i <= maxCount
      invariant 0 <= i <= |str|
      invariant forall k :: 0 <= k < i ==> AtomMatchesChar(escaped, c, str[k])
      invariant forall k: nat :: k < i ==> !MatchesAfter(item, items, end, str, k)
      decreases |str| - i
    {
      if i >= minCount {
        found := MatchRegexAtHead(regex, str[i..]);
        if found {
          assert i <= maxCount && MatchesAfter(item, items, end, str, i);
          return true;
        }
      }
      if At(str, i) == '\0' || !AtomMatchesChar(escaped, c, str[i]) {
        forall k: nat | i < k <= |str| ensures !MatchesAfter(item, items, end, str, k) {
          assert str[..k][i] == str[i];
        }
        return false;
      }
      i := i + 1;
    }
    return false;
  }

  /** True iff some prefix of `str`, all of it when anchored, is in the language of the pattern. */
  method MatchRegexAtHead(regex: string, str: string) returns (found: bool)
    requires NulFree(regex) && NulFree(str) && |str| < kSizeMax
    requires ParseItems(regex).Some?
    ensures found <==> MatchesPrefix(ParseItems(regex).value.0, ParseItems(regex).value.1, str)
    decreases |regex|, 0
  {
    ParseItemsOfEnd(regex);
    hide ParseItems, ParseAfterAtom, MatchesPrefix;
    if At(regex, 0) == '\0' {
      NoItemsMatchNothing(false, str);
      return true;
    }
    if At(regex, 0) == '$' {
      NoItemsMatchNothing(true, str);
      return At(str, 0) == '\0';
    }
    ParseItemsUnfolds(regex);
    ghost var items, end := ParseItems(regex).value.0, ParseItems(regex).value.1;
    MatchesPrefixUnfolds(items, end, str);
    var escaped := At(regex, 0) == '\\';
    var re := if escaped then regex[1..] else regex;
    if IsRepeat(At(re, 1)) {
      found := MatchRepetitionAndRegexAtHead(escaped, re[0], re[1], re[2..], str);
      assert items[1..] == ParseItems(re[2..]).value.0 && items[0] == Item(escaped, re[0], RepeatOf(re[1]));
      assert found <==> MatchesPrefix(items, end, str);
    } else {
      assert forall k: nat :: k <= |str| && MatchesAfter(items[0], items[1..], end, str, k) ==> k == 1;
      assert str != "" ==> str[..1] == [str[0]];
      assert items[1..] == ParseItems(re[1..]).value.0;
      found := At(str, 0) != '\0' && AtomMatchesChar(escaped, re[0], str[0]);
      if found {
        found := MatchRegexAtHead(re[1..], str[1..]);
      }
      assert found <==> str != "" && MatchesAfter(items[0], items[1..], end, str, 1);
      assert found <==> MatchesPrefix(items, end, str);
    }
  }

  /** True iff some substring, respecting the anchors, is in the language of the pattern. */
  method MatchRegexAnywhere(regex: Option<string>, str: Option<string>) returns (found: bool)
    requires regex.Some? ==> NulFree(regex.value) && Parse(regex.value).Some?
    requires str.Some? ==> NulFree(str.value) && |str.value| < kSizeMax
    ensures found <==> regex.Some? && str.Some? && MatchesSomewhere(Parse(regex.value).value, str.value)
  {
    if regex == None || str == None {
      return false;
    }
    var re, s := regex.value, str.value;
    ghost var p := Parse(re).value;
    MatchesSomewhereByStart(p, s);
    if At(re, 0) == '^' {
      found := MatchRegexAtHead(re[1..], s);
      assert s[0..] == s;
      assert MatchesFrom(p, s, 0) <==> found;
      return found;
    }
    var i := 0;
    while true
      invariant 0 <= i <= |s|
      invariant forall k: nat :: k < i ==> !MatchesFrom(p, s, k)
      decreases |s| - i
    {
      found := MatchRegexAtHead(re, s[i..]);
      if found {
        assert MatchesFrom(p, s, i);
        return true;
      }
      assert !MatchesFrom(p, s, i);
      if At(s, i) == '\0' {
        return false;
      }
      i := i + 1;
    }
  }

  ghost predicate MatchesFrom(p: Pattern, s: string, i: nat)
    requires i <= |s|
  {
    (p.anchoredAtStart ==> i == 0) && MatchesPrefix(p.items, p.anchoredAtEnd, s[i..])
  }

  lemma MatchesSomewhereByStart(p: Pattern, s: string)
    ensures MatchesSomewhere(p, s) <==> exists i: nat :: i <= |s| && MatchesFrom(p, s, i)
  {
    if MatchesSomewhere(p, s) {
      var i: nat, j: nat :| i <= j <= |s| && (p.anchoredAtStart ==> i == 0) && (p.anchoredAtEnd ==> j == |s|)
                            && InLanguage(p.items, s[i..j]);
      assert s[i..][..j - i] == s[i..j];
      assert MatchesFrom(p, s, i);
    }
    if i: nat :| i <= |s| && MatchesFrom(p, s, i) {
      var j: nat :| j <= |s| - i && (p.anchoredAtEnd ==> j == |s| - i) && InLanguage(p.items, s[i..][..j]);
      assert s[i..][..j] == s[i..i + j];
    }
  }

  // The RE class.

  /** The language of all of `s`, ignoring the anchors, which a full match implies. */
  ghost predicate MatchesWhole(p: Pattern, s: string) {
    InLanguage(p.items, s)
  }

  /** The pattern ends in an escaped dollar sign, that is, in the character, not the anchor. */
  ghost predicate EndsWithEscapedDollar(p: Pattern) {
    !p.anchoredAtEnd && p.items != [] && p.items[|p.items| - 1] == Item(true, '$', Once)
  }

  /** The pattern that Init builds for full matches. */
  ghost function FullPattern(p: Pattern): Pattern {
    Pattern(true, p.items, !EndsWithEscapedDollar(p))
  }

  class RE {
    var pattern: Option<string>
    var fullPattern: Option<string>
    var isValid: bool

    ghost predicate Valid()
      reads this
    {
      && (pattern.Some? ==> NulFree(pattern.value))
      && (isValid <==> pattern.Some? && Parse(pattern.value).Some?)
      && (isValid ==> fullPattern.Some? && NulFree(fullPattern.value)
                      && Parse(fullPattern.value) == Some(FullPattern(Parse(pattern.value).value)))
    }

    constructor (regex: Option<string>)
      requires regex.Some? ==> NulFree(regex.value)
      ensures Valid() && pattern == regex
    {
      pattern, fullPattern := regex, None;
      isValid := false;
      new;
      isValid := ValidateRegex(regex);
      if isValid {
        var re := regex.value;
        var buffer := "";
        if At(re, 0) != '^' {
          buffer := buffer + "^";
        }
        buffer := buffer + re;
        if |re| == 0 || re[|re| - 1] != '$' {
          buffer := buffer + "$";
        }
        fullPattern := Some(buffer);
        assert buffer == EndingInDollar(if re != "" && re[0] == '^' then re else "^" + re);
        FullPatternIsWritten(re, buffer);
      }
    }

    /** True iff the pattern is valid and matches all of `str`; but a pattern that ends in an
        escaped dollar sign need only match a prefix. */
    method FullMatch(str: Option<string>) returns (matched: bool)
      requires Valid() && (str.Some? ==> NulFree(str.value) && |str.value| < kSizeMax)
      ensures matched <==>
                isValid && str.Some? && FullMatches(Parse(pattern.value).value, str.value)
    {
      if !isValid {
        return false;
      }
      matched := MatchRegexAnywhere(fullPattern, str);
      if str.Some? {
        FullPatternMatches(Parse(pattern.value).value, str.value);
      }
    }

    /** True iff the pattern is valid and matches some substring. */
    method PartialMatch(str: Option<string>) returns (matched: bool)
      requires Valid() && (str.Some? ==> NulFree(str.value) && |str.value| < kSizeMax)
      ensures matched <==> isValid && str.Some? && MatchesSomewhere(Parse(pattern.value).value, str.value)
    {
      if !isValid {
        return false;
      }
      matched := MatchRegexAnywhere(pattern, str);
    }
  }

  /** What FullMatch answers for a valid pattern. */
  ghost predicate FullMatches(p: Pattern, s: string) {
    if EndsWithEscapedDollar(p) then MatchesPrefix(p.items, false, s) else MatchesWhole(p, s)
  }

  lemma FullPatternMatches(p: Pattern, s: string)
    ensures MatchesSomewhere(FullPattern(p), s) <==> FullMatches(p, s)
  {
    var full := FullPattern(p);
    MatchesSomewhereByStart(full, s);
    assert s[0..] == s && s[..|s|] == s;
    assert MatchesSomewhere(full, s) <==> MatchesFrom(full, s, 0);
  }

  /** `s` with a dollar sign appended, unless it ends in one. */
  function EndingInDollar(s: string): string {
    if s == "" || s[|s| - 1] != '$' then s + "$" else s
  }

  /** The built pattern is valid, and says what it should. */
  lemma FullPatternIsWritten(re: string, buffer: string)
    requires Parse(re).Some?
    requires buffer == EndingInDollar(if re != "" && re[0] == '^' then re else "^" + re)
    ensures Parse(buffer) == Some(FullPattern(Parse(re).value))
  {
    var p := Parse(re).value;
    var tail := if re != "" && re[0] == '^' then re[1..] else re;
    assert ParseItems(tail) == Some((p.items, p.anchoredAtEnd));
    assert buffer == "^" + EndingInDollar(tail);
    hide *;
    ParseItemsIsSound(tail);
    AppendAnchor(p);
    ParseWrittenFull(p, buffer);
  }

  lemma ParseWrittenFull(p: Pattern, buffer: string)
    requires WellFormedItems(p.items)
    requires buffer == "^" + WriteItems(p.items, FullPattern(p).anchoredAtEnd)
    ensures Parse(buffer) == Some(FullPattern(p))
  {
    ParseReadsExactlyTheWritten(buffer);
    assert Write(FullPattern(p)) == buffer;
  }

  /** Appending '$' to written items, unless they end in one, anchors them, unless the one they
      end in was escaped. */
  lemma AppendAnchor(p: Pattern)
    requires WellFormedItems(p.items)
    ensures EndingInDollar(WriteItems(p.items, p.anchoredAtEnd)) == WriteItems(p.items, FullPattern(p).anchoredAtEnd)
  {
    LastCharacterOfItems(p.items, p.anchoredAtEnd);
    WriteItemsWithAnchor(p.items);
  }

  lemma {:induction false} WriteItemsWithAnchor(items: seq<Item>)
    ensures WriteItems(items, true) == WriteItems(items, false) + "$"
    decreases |items|
  {
    if items != [] {
      WriteItemsWithAnchor(items[1..]);
    }
  }

  /** A written pattern ends in '$' exactly if it is anchored or its last item is an escaped dollar. */
  lemma {:induction false} LastCharacterOfItems(items: seq<Item>, end: bool)
    requires WellFormedItems(items)
    ensures var s := WriteItems(items, end);
            (s != "" && s[|s| - 1] == '$') <==> end || EndsWithEscapedDollar(Pattern(false, items, false))
    decreases |items|
  {
    if items != [] {
      assert WellFormedItem(items[0]);
      LastCharacterOfItems(items[1..], end);
    }
  }

  // When FullMatch is what its name says.

  /** A character that the atom of a well-formed item matches. */
  function SampleOf(item: Item): char {
    if item.escaped then
      match item.atom
      case 'd' => '0'
      case 'D' => 'a'
      case 'f' => '\U{0C}'
      case 'n' => '\n'
      case 'r' => '\r'
      case 's' => ' '
      case 'S' => 'a'
      case 't' => '\t'
      case 'v' => '\U{0B}'
      case 'w' => 'a'
      case 'W' => ' '
      case _ => item.atom
    else item.atom
  }

  /** No language is empty. */
  lemma {:induction false} SomeStringIsInLanguage(items: seq<Item>) returns (s: string)
    requires WellFormedItems(items)
    ensures NulFree(s) && InLanguage(items, s)
    decreases |items|
  {
    if items == [] {
      s := "";
    } else {
      assert WellFormedItem(items[0]);
      var rest := SomeStringIsInLanguage(items[1..]);
      s := [SampleOf(items[0])] + rest;
      assert s[..1] == [SampleOf(items[0])] && s[1..] == rest;
      assert InItem(items[0], s[..1]);
    }
  }

  /** A string of a language whose last item is one escaped dollar sign ends in a dollar sign. */
  lemma {:induction false} LanguageEndsInDollar(items: seq<Item>, s: string)
    requires items != [] && items[|items| - 1] == Item(true, '$', Once)
    requires InLanguage(items, s)
    ensures s != "" && s[|s| - 1] == '$'
    decreases |items|
  {
    var k: nat :| k <= |s| && InItem(items[0], s[..k]) && InLanguage(items[1..], s[k..]);
    if |items| > 1 {
      LanguageEndsInDollar(items[1..], s[k..]);
    } else {
      assert s[..k][0] == s[0];
    }
  }

  /** FullMatch decides whether the whole string is in the language exactly for the valid
      patterns that do not end in an escaped dollar sign. */
  lemma FullMatchIsWholeMatchExactly(p: Pattern)
    requires WellFormedItems(p.items)
    ensures (forall s :: NulFree(s) ==> (FullMatches(p, s) <==> MatchesWhole(p, s)))
            <==> !EndsWithEscapedDollar(p)
  {
    if EndsWithEscapedDollar(p) {
      var w := SomeStringIsInLanguage(p.items);
      var s := w + "x";
      assert s[..|w|] == w;
      assert FullMatches(p, s);
      if MatchesWhole(p, s) {
        LanguageEndsInDollar(p.items, s);
      }
      assert NulFree(s) && !MatchesWhole(p, s);
    }
  }
}
