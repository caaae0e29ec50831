/** Which tests a filter selects: wildcard patterns, the flag that lists them, and the names that
    mark disabled tests and death tests. */
module TestFilters {

  /** Whether the wildcard pattern, up to the first ':' in it, matches the string. */
  predicate PatternMatchesString(pattern: string, str: string)
    decreases |pattern| + |str|
  {
    if pattern == "" || pattern[0] == ':' then str == ""
    else if pattern[0] == '?' then str != "" && PatternMatchesString(pattern[1..], str[1..])
    else if pattern[0] == '*' then
      (str != "" && PatternMatchesString(pattern, str[1..])) || PatternMatchesString(pattern[1..], str)
    else str != "" && pattern[0] == str[0] && PatternMatchesString(pattern[1..], str[1..])
  }

  /** What comes after the first ':'. */
  function AfterColon(filter: string): (rest: seq<string>)
    ensures |rest| <= 1 && (rest != [] ==> |rest[0]| < |filter|)
  {
    if filter == "" then [] else if filter[0] == ':' then [filter[1..]] else AfterColon(filter[1..])
  }

  predicate MatchesFilter(name: string, filter: string)
    decreases |filter|
  {
    || PatternMatchesString(filter, name)
    || (AfterColon(filter) != [] && MatchesFilter(name, AfterColon(filter)[0]))
  }

  const kDeathTestCaseFilter := "*DeathTest:*DeathTest/*"
  const kDisableTestFilter := "DISABLED_*:*/DISABLED_*"

  predicate IsDeathTestCase(name: string) { MatchesFilter(name, kDeathTestCaseFilter) }

  /** A test is disabled if its name or that of its test case says so. */
  predicate IsDisabled(testCaseName: string, testName: string) {
    MatchesFilter(testCaseName, kDisableTestFilter) || MatchesFilter(testName, kDisableTestFilter)
  }

  /** The position of the first '-', or the length. */
  function FirstDash(filter: string): (n: nat)
    ensures n <= |filter| && '-' !in filter[..n] && (n < |filter| ==> filter[n] == '-')
  {
    if filter == "" || filter[0] == '-' then 0 else 1 + FirstDash(filter[1..])
  }

  /** The full name matches what the flag has before its first '-', or everything if that is
      empty, and does not match what comes after. */
  predicate FilterMatchesTest(flag: string, testCaseName: string, testName: string) {
    var fullName := testCaseName + "." + testName;
    var dash := FirstDash(flag);
    if dash == |flag| then MatchesFilter(fullName, flag) && !MatchesFilter(fullName, "")
    else
      && MatchesFilter(fullName, if dash == 0 then "*" else flag[..dash])
      && !MatchesFilter(fullName, flag[dash + 1..])
  }

  // What a pattern and a list of patterns mean.

  /** What one character of a pattern stands for. */
  ghost predicate Fits(c: char, piece: string) {
    if c == '*' then true else if c == '?' then |piece| == 1 else piece == [c]
  }

  ghost function Concatenation(pieces: seq<string>): string {
    if pieces == [] then "" else pieces[0] + Concatenation(pieces[1..])
  }

  ghost predicate AreCut(pattern: string, str: string, pieces: seq<string>) {
    && |pieces| == |pattern| && Concatenation(pieces) == str
    && forall i :: 0 <= i < |pattern| ==> Fits(pattern[i], pieces[i])
  }

  /** The string can be cut into pieces that fit the characters of the pattern one by one. */
  ghost predicate InGlob(pattern: string, str: string) {
    exists pieces :: AreCut(pattern, str, pieces)
  }

  lemma AddPiece(c: char, pattern: string, piece: string, str: string)
    requires Fits(c, piece) && InGlob(pattern, str)
    ensures InGlob([c] + pattern, piece + str)
  {
    var pieces :| AreCut(pattern, str, pieces);
    assert ([piece] + pieces)[1..] == pieces;
    assert AreCut([c] + pattern, piece + str, [piece] + pieces);
  }

  lemma TakePiece(pattern: string, str: string) returns (piece: string, rest: string)
    requires pattern != "" && InGlob(pattern, str)
    ensures str == piece + rest && Fits(pattern[0], piece) && InGlob(pattern[1..], rest)
  {
    var pieces :| AreCut(pattern, str, pieces);
    piece, rest := pieces[0], Concatenation(pieces[1..]);
    assert AreCut(pattern[1..], rest, pieces[1..]);
  }

  lemma EmptyGlob(str: string)
    ensures InGlob("", str) <==> str == ""
  {
    assert AreCut("", "", []);
  }

  lemma {:induction false} MatchIsInGlob(pattern: string, str: string)
    requires ':' !in pattern && PatternMatchesString(pattern, str)
    ensures InGlob(pattern, str)
    decreases |pattern| + |str|
  {
    hide InGlob;
    if pattern == "" {
      EmptyGlob(str);
    } else {
      var c, rest := pattern[0], pattern[1..];
      assert pattern == [c] + rest;
      if c == '*' {
        if str != "" && PatternMatchesString(pattern, str[1..]) {
          MatchIsInGlob(pattern, str[1..]);
          var piece, after := TakePiece(pattern, str[1..]);
          assert str == ([str[0]] + piece) + after;
          AddPiece(c, rest, [str[0]] + piece, after);
        } else {
          MatchIsInGlob(rest, str);
          assert str == "" + str;
          AddPiece(c, rest, "", str);
        }
      } else {
        MatchIsInGlob(rest, str[1..]);
        assert str == [str[0]] + str[1..];
        AddPiece(c, rest, [str[0]], str[1..]);
      }
    }
  }

  lemma {:induction false} GlobIsMatched(pattern: string, str: string)
    requires ':' !in pattern && InGlob(pattern, str)
    ensures PatternMatchesString(pattern, str)
    decreases |pattern| + |str|
  {
    hide InGlob;
    if pattern == "" {
      EmptyGlob(str);
    } else {
      var c, rest := pattern[0], pattern[1..];
      assert pattern == [c] + rest;
      var piece, after := TakePiece(pattern, str);
      if c == '*' && piece != "" {
        AddPiece(c, rest, piece[1..], after);
        assert str[1..] == piece[1..] + after;
        GlobIsMatched(pattern, str[1..]);
      } else {
        assert c == '*' ==> str == after;
        assert c != '*' ==> str[1..] == after;
        GlobIsMatched(rest, after);
      }
    }
  }

  lemma {:induction false} PatternEndsAtColon(pattern: string, rest: string, str: string)
    requires ':' !in pattern
    ensures PatternMatchesString(pattern + ":" + rest, str) <==> PatternMatchesString(pattern, str)
    decreases |pattern| + |str|
  {
    if pattern != "" {
      assert (pattern + ":" + rest)[1..] == pattern[1..] + ":" + rest;
      PatternEndsAtColon(pattern[1..], rest, str);
      if str != "" {
        PatternEndsAtColon(pattern[1..], rest, str[1..]);
        PatternEndsAtColon(pattern, rest, str[1..]);
      }
    }
  }

  /** The matcher decides whether the string is in the language of the pattern, which ends at the
      first colon. */
  lemma PatternMatchesExactly(pattern: string, rest: string, str: string)
    requires ':' !in pattern
    ensures PatternMatchesString(pattern, str) <==> InGlob(pattern, str)
    ensures PatternMatchesString(pattern + ":" + rest, str) <==> InGlob(pattern, str)
  {
    hide PatternMatchesString, InGlob;
    PatternEndsAtColon(pattern, rest, str);
    if PatternMatchesString(pattern, str) {
      MatchIsInGlob(pattern, str);
    }
    if InGlob(pattern, str) {
      GlobIsMatched(pattern, str);
    }
  }

  /** The characters from `i` to `j` are one of the patterns that colons separate. */
  ghost predicate IsPatternOf(filter: string, i: int, j: int): (b: bool)
    ensures b ==> 0 <= i <= j <= |filter|
  {
    && 0 <= i <= j <= |filter| && (forall k :: i <= k < j ==> filter[k] != ':')
    && (i == 0 || filter[i - 1] == ':') && (j == |filter| || filter[j] == ':')
  }

  /** One of the patterns fits the name. */
  ghost predicate SomePatternFits(filter: string, name: string) {
    exists i, j :: IsPatternOf(filter, i, j) && InGlob(filter[i..j], name)
  }

  lemma OnePatternFits(filter: string, name: string)
    requires ':' !in filter
    ensures SomePatternFits(filter, name) <==> InGlob(filter, name)
  {
    hide InGlob;
    assert IsPatternOf(filter, 0, |filter|) && filter[0..|filter|] == filter;
  }

  lemma FirstPattern(first: string, rest: string, i: int, j: int)
    requires ':' !in first && i <= |first|
    ensures IsPatternOf(first + ":" + rest, i, j) <==> i == 0 && j == |first|
    ensures (first + ":" + rest)[0..|first|] == first
  {
    var filter, n := first + ":" + rest, |first|;
    assert forall k :: 0 <= k < n ==> filter[k] == first[k];
    assert filter[n] == ':';
  }

  lemma LaterPattern(filter: string, n: nat, rest: string, i: nat, j: nat)
    requires 0 < n <= |filter| && filter[n - 1] == ':' && rest == filter[n..] && i <= j <= |rest|
    ensures IsPatternOf(filter, n + i, n + j) <==> IsPatternOf(rest, i, j)
    ensures filter[n + i..n + j] == rest[i..j]
  {
    assert forall k :: 0 <= k < |rest| ==> rest[k] == filter[n + k];
    assert forall k :: n <= k < |filter| ==> filter[k] == rest[k - n];
  }

  lemma FirstOrLaterPatternFits(first: string, rest: string, name: string)
    requires ':' !in first
    ensures SomePatternFits(first + ":" + rest, name) <==> InGlob(first, name) || SomePatternFits(rest, name)
  {
    hide InGlob, IsPatternOf;
    var filter, n := first + ":" + rest, |first| + 1;
    FirstPattern(first, rest, 0, |first|);
    assert filter[n - 1] == ':' && filter[n..] == rest;
    if i, j :| IsPatternOf(rest, i, j) && InGlob(rest[i..j], name) {
      LaterPattern(filter, n, rest, i, j);
    }
    if i, j :| IsPatternOf(filter, i, j) && InGlob(filter[i..j], name) {
      if i <= |first| {
        FirstPattern(first, rest, i, j);
      } else {
        LaterPattern(filter, n, rest, i - n, j - n);
      }
    }
  }

  lemma {:induction false} CutAtColon(filter: string) returns (first: string)
    ensures ':' !in first
    ensures filter == if AfterColon(filter) == [] then first else first + ":" + AfterColon(filter)[0]
    decreases |filter|
  {
    first := "";
    if filter != "" && filter[0] != ':' {
      first := CutAtColon(filter[1..]);
      first := [filter[0]] + first;
    }
  }

  /** A filter matches a name if and only if one of its patterns fits it. */
  lemma {:induction false} MatchesFilterExactly(name: string, filter: string)
    ensures MatchesFilter(name, filter) <==> SomePatternFits(filter, name)
    decreases |filter|
  {
    hide PatternMatchesString, InGlob, SomePatternFits, AfterColon;
    var first := CutAtColon(filter);
    if AfterColon(filter) == [] {
      PatternMatchesExactly(first, "", name);
      OnePatternFits(filter, name);
    } else {
      var rest := AfterColon(filter)[0];
      PatternMatchesExactly(first, rest, name);
      FirstOrLaterPatternFits(first, rest, name);
      MatchesFilterExactly(name, rest);
    }
  }

  // The flag.

  lemma EverythingFits(name: string)
    ensures SomePatternFits("*", name)
  {
    assert name + "" == name && ['*'] + "" == "*";
    EmptyGlob("");
    hide InGlob, SomePatternFits;
    AddPiece('*', "", name, "");
    OnePatternFits("*", name);
  }

  lemma NothingFitsEmpty(name: string)
    requires name != ""
    ensures !SomePatternFits("", name)
  {
    OnePatternFits("", name);
    EmptyGlob(name);
  }

  lemma DashIs(positive: string, rest: string)
    requires '-' !in positive && (rest == "" || rest[0] == '-')
    ensures FirstDash(positive + rest) == |positive|
  {
    var flag, n := positive + rest, FirstDash(positive + rest);
    hide FirstDash;
    assert forall k :: 0 <= k < |positive| ==> flag[k] == positive[k];
    assert forall k :: 0 <= k < n ==> flag[k] == flag[..n][k];
    assert rest != "" ==> flag[|positive|] == '-';
  }

  /** A test is selected if and only if some pattern before the first dash fits its full name, or
      nothing stands there, and none after the dash does. */
  lemma FilterMatchesTestExactly(positive: string, negative: string, testCaseName: string, testName: string)
    requires '-' !in positive
    ensures var fullName := testCaseName + "." + testName;
            && (FilterMatchesTest(positive, testCaseName, testName) <==> SomePatternFits(positive, fullName))
            && (FilterMatchesTest(positive + "-" + negative, testCaseName, testName)
                <==> (positive == "" || SomePatternFits(positive, fullName)) && !SomePatternFits(negative, fullName))
  {
    hide MatchesFilter, SomePatternFits, FirstDash;
    var fullName := testCaseName + "." + testName;
    var flag := positive + "-" + negative;
    DashIs(positive, "-" + negative);
    DashIs(positive, "");
    assert positive + "" == positive && flag == positive + ("-" + negative);
    assert flag[..|positive|] == positive && flag[|positive| + 1..] == negative;
    MatchesFilterExactly(fullName, positive);
    MatchesFilterExactly(fullName, negative);
    MatchesFilterExactly(fullName, "");
    MatchesFilterExactly(fullName, "*");
    NothingFitsEmpty(fullName);
    EverythingFits(fullName);
  }

  // Names with a meaning.

  ghost predicate Contains(name: string, word: string) {
    exists k :: 0 <= k <= |name| && word <= name[k..]
  }

  /** A word without wildcards must stand where the pattern begins. */
  lemma {:induction false} WordMatches(word: string, rest: string, str: string)
    requires ':' !in word && '*' !in word && '?' !in word
    ensures PatternMatchesString(word + rest, str) <==> word <= str && PatternMatchesString(rest, str[|word|..])
    decreases |word|
  {
    if word == "" {
      assert word + rest == rest && str[0..] == str;
    } else {
      assert (word + rest)[1..] == word[1..] + rest;
      if str != "" {
        WordMatches(word[1..], rest, str[1..]);
        assert word == [word[0]] + word[1..] && str == [str[0]] + str[1..];
        assert word <= str ==> str[1..][|word| - 1..] == str[|word|..];
      }
    }
  }

  lemma StarUnfolds(rest: string, str: string)
    ensures PatternMatchesString("*" + rest, str)
            <==> (str != "" && PatternMatchesString("*" + rest, str[1..])) || PatternMatchesString(rest, str)
  {
    assert ("*" + rest)[1..] == rest;
  }

  /** A star lets the rest of the pattern begin anywhere. */
  lemma {:induction false} StarMatches(rest: string, str: string)
    ensures PatternMatchesString("*" + rest, str)
            <==> exists k :: 0 <= k <= |str| && PatternMatchesString(rest, str[k..])
    decreases |str|
  {
    hide PatternMatchesString;
    StarUnfolds(rest, str);
    assert str[0..] == str;
    if str != "" {
      StarMatches(rest, str[1..]);
      if k :| 0 <= k <= |str| - 1 && PatternMatchesString(rest, str[1..][k..]) {
        assert str[1..][k..] == str[k + 1..];
      }
      if k :| 0 <= k <= |str| && PatternMatchesString(rest, str[k..]) {
        if k > 0 {
          assert str[k..] == str[1..][k - 1..];
        }
      }
    }
  }

  lemma ContainsMatches(word: string, str: string)
    requires ':' !in word && '*' !in word && '?' !in word
    ensures PatternMatchesString("*" + word + "*", str) <==> Contains(str, word)
  {
    hide PatternMatchesString;
    assert "*" + word + "*" == "*" + (word + "*");
    StarMatches(word + "*", str);
    forall k | 0 <= k <= |str|
      ensures PatternMatchesString(word + "*", str[k..]) <==> word <= str[k..]
    {
      WordMatches(word, "*", str[k..]);
      if word <= str[k..] {
        AnythingMatches(str[k..][|word|..]);
      }
    }
  }

  lemma {:induction false} AnythingMatches(str: string)
    ensures PatternMatchesString("*", str)
    decreases |str|
  {
    if str != "" {
      AnythingMatches(str[1..]);
    }
  }

  lemma EndsMatches(word: string, str: string)
    requires ':' !in word && '*' !in word && '?' !in word
    ensures PatternMatchesString("*" + word, str) <==> exists k :: 0 <= k <= |str| && str[k..] == word
  {
    hide PatternMatchesString;
    StarMatches(word, str);
    forall k | 0 <= k <= |str|
      ensures PatternMatchesString(word, str[k..]) <==> str[k..] == word
    {
      WordMatches(word, "", str[k..]);
      assert word + "" == word;
      if word <= str[k..] {
        EmptyPatternMatches(str[k..][|word|..]);
      }
    }
  }

  lemma EmptyPatternMatches(str: string)
    ensures PatternMatchesString("", str) <==> str == ""
  {
  }

  lemma TwoPatterns(first: string, second: string, name: string)
    requires ':' !in first && ':' !in second
    ensures MatchesFilter(name, first + ":" + second)
            <==> PatternMatchesString(first, name) || PatternMatchesString(second, name)
  {
    hide MatchesFilter, PatternMatchesString, InGlob, SomePatternFits;
    MatchesFilterExactly(name, first + ":" + second);
    FirstOrLaterPatternFits(first, second, name);
    OnePatternFits(second, name);
    PatternMatchesExactly(first, "", name);
    PatternMatchesExactly(second, "", name);
  }

  /** Death tests are in test cases whose name ends in DeathTest, or has it before a slash, as
      those with parameters do. */
  lemma DeathTestCaseExactly(name: string)
    ensures IsDeathTestCase(name)
            <==> (exists k :: 0 <= k <= |name| && name[k..] == "DeathTest") || Contains(name, "DeathTest/")
  {
    hide MatchesFilter, PatternMatchesString, Contains;
    TwoPatterns("*DeathTest", "*DeathTest/*", name);
    assert "*DeathTest" + ":" + "*DeathTest/*" == kDeathTestCaseFilter;
    assert "*" + "DeathTest" == "*DeathTest" && "*" + "DeathTest/" + "*" == "*DeathTest/*";
    EndsMatches("DeathTest", name);
    ContainsMatches("DeathTest/", name);
  }

  /** The name begins with DISABLED_, itself or after a slash. */
  ghost predicate SaysDisabled(name: string) {
    "DISABLED_" <= name || Contains(name, "/DISABLED_")
  }

  lemma SaysDisabledExactly(name: string)
    ensures MatchesFilter(name, kDisableTestFilter) <==> SaysDisabled(name)
  {
    hide MatchesFilter, PatternMatchesString, Contains;
    TwoPatterns("DISABLED_*", "*/DISABLED_*", name);
    assert "DISABLED_*" + ":" + "*/DISABLED_*" == kDisableTestFilter;
    assert "DISABLED_" + "*" == "DISABLED_*" && "*" + "/DISABLED_" + "*" == "*/DISABLED_*";
    WordMatches("DISABLED_", "*", name);
    if "DISABLED_" <= name {
      AnythingMatches(name[9..]);
    }
    ContainsMatches("/DISABLED_", name);
  }

  lemma DisabledExactly(testCaseName: string, testName: string)
    ensures IsDisabled(testCaseName, testName) <==> SaysDisabled(testCaseName) || SaysDisabled(testName)
  {
    hide MatchesFilter, SaysDisabled;
    SaysDisabledExactly(testCaseName);
    SaysDisabledExactly(testName);
  }
}
