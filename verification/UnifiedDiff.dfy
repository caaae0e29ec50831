/** What a list of hunks means: a patch to the left sequence. */
module DiffHunks {

  datatype HunkLine = HunkLine(edit: char, line: string)

  /** A finished hunk: where it starts on each side, counted from 1, how long it is there, and
      its body. */
  datatype HunkData = HunkData(
    leftStart: nat, leftLength: nat, rightStart: nat, rightLength: nat, lines: seq<HunkLine>)

  /** The lines a hunk says it takes from the left: unchanged and removed ones. */
  ghost function OldLines(lines: seq<HunkLine>): seq<string> {
    if lines == [] then []
    else OldLines(lines[..|lines| - 1]) + if lines[|lines| - 1].edit == '+' then [] else [lines[|lines| - 1].line]
  }

  /** The lines it puts on the right: unchanged and added ones. */
  ghost function NewLines(lines: seq<HunkLine>): seq<string> {
    if lines == [] then []
    else NewLines(lines[..|lines| - 1]) + if lines[|lines| - 1].edit == '-' then [] else [lines[|lines| - 1].line]
  }

  /** How many unchanged lines a hunk body starts with. */
  ghost function LeadingContext(lines: seq<HunkLine>): nat {
    if lines == [] || lines[0].edit != ' ' then 0 else 1 + LeadingContext(lines[1..])
  }

  /** How many unchanged lines it ends with. */
  ghost function TrailingContext(lines: seq<HunkLine>): nat {
    if lines == [] || lines[|lines| - 1].edit != ' ' then 0 else 1 + TrailingContext(lines[..|lines| - 1])
  }

  /** The length of the longest run of unchanged lines. */
  ghost function LongestRun(lines: seq<HunkLine>): nat {
    if lines == [] then 0 else Max(LongestRun(lines[..|lines| - 1]), TrailingContext(lines))
  }

  function Max(a: nat, b: nat): (m: nat)
    ensures a <= m && b <= m && (m == a || m == b)
  {
    if a <= b then b else a
  }

  ghost predicate AllOf(lines: seq<HunkLine>, edit: char) {
    forall k :: 0 <= k < |lines| ==> lines[k].edit == edit
  }

  ghost predicate HasLine(lines: seq<HunkLine>, edit: char) {
    exists k :: 0 <= k < |lines| && lines[k].edit == edit
  }

  lemma HasLineOfConcat(a: seq<HunkLine>, b: seq<HunkLine>, edit: char)
    ensures HasLine(a + b, edit) <==> HasLine(a, edit) || HasLine(b, edit)
  {
    if k :| 0 <= k < |a| && a[k].edit == edit {
      assert (a + b)[k].edit == edit;
    }
    if k :| 0 <= k < |b| && b[k].edit == edit {
      assert (a + b)[|a| + k].edit == edit;
    }
  }

  ghost predicate HasEdits(lines: seq<HunkLine>) {
    exists k :: 0 <= k < |lines| && lines[k].edit != ' '
  }

  /** Within a run of edits all removals come before all additions. */
  ghost predicate RemovesBeforeAdds(lines: seq<HunkLine>) {
    forall k :: 0 <= k < |lines| - 1 ==> !(lines[k].edit == '+' && lines[k + 1].edit == '-')
  }

  /** Where the last hunk ends on the left and on the right. */
  ghost function LeftEnd(hunks: seq<HunkData>): int {
    if hunks == [] then 0 else
      var h := hunks[|hunks| - 1]; h.leftStart - 1 + |OldLines(h.lines)|
  }

  ghost function RightEnd(hunks: seq<HunkData>): int {
    if hunks == [] then 0 else
      var h := hunks[|hunks| - 1]; h.rightStart - 1 + |NewLines(h.lines)|
  }

  ghost predicate Occupies(side: seq<string>, from: int, lines: seq<string>) {
    0 <= from && from + |lines| <= |side| && side[from..from + |lines|] == lines
  }

  /** The hunks occupy successive, non-overlapping ranges of both sides, and their bodies are
      what stands there. */
  ghost predicate Fit(left: seq<string>, right: seq<string>, hunks: seq<HunkData>) {
    hunks != [] ==>
      var init, h := hunks[..|hunks| - 1], hunks[|hunks| - 1];
      && Fit(left, right, init)
      && LeftEnd(init) <= h.leftStart - 1 && RightEnd(init) <= h.rightStart - 1
      && Occupies(left, h.leftStart - 1, OldLines(h.lines))
      && Occupies(right, h.rightStart - 1, NewLines(h.lines))
  }

  lemma FitEnds(left: seq<string>, right: seq<string>, hunks: seq<HunkData>)
    requires Fit(left, right, hunks)
    ensures 0 <= LeftEnd(hunks) <= |left| && 0 <= RightEnd(hunks) <= |right|
  {
  }

  /** The left sequence up to the end of the last hunk, each hunk's old lines replaced by its
      new ones. */
  ghost function Patched(left: seq<string>, right: seq<string>, hunks: seq<HunkData>): seq<string>
    requires Fit(left, right, hunks)
  {
    if hunks == [] then [] else
      var init, h := hunks[..|hunks| - 1], hunks[|hunks| - 1];
      FitEnds(left, right, init);
      Patched(left, right, init) + left[LeftEnd(init)..h.leftStart - 1] + NewLines(h.lines)
  }

  /** The whole left sequence, patched. */
  ghost function Apply(left: seq<string>, right: seq<string>, hunks: seq<HunkData>): seq<string>
    requires Fit(left, right, hunks)
  {
    FitEnds(left, right, hunks);
    Patched(left, right, hunks) + left[LeftEnd(hunks)..]
  }

  /** A hunk holds an edit, has the lengths of its header, groups removals before additions, and
      is surrounded by `context` unchanged lines, or by as many as the left side has. Inside it
      there are fewer than twice as many between two edits; so edits are in one hunk exactly if
      their contexts meet. */
  ghost predicate WellFormed(h: HunkData, leftSize: nat, context: nat) {
    && HasEdits(h.lines)
    && h.leftLength == |OldLines(h.lines)| && h.rightLength == |NewLines(h.lines)|
    && RemovesBeforeAdds(h.lines) && LongestRun(h.lines) < 2 * context
    && LeadingContext(h.lines) <= context && TrailingContext(h.lines) <= context
    && (LeadingContext(h.lines) == context || h.leftStart == 1)
    && (TrailingContext(h.lines) == context || h.leftStart - 1 + |OldLines(h.lines)| == leftSize)
  }

  // Properties of hunk bodies under concatenation.

  lemma SidesOfSnoc(lines: seq<HunkLine>, x: HunkLine)
    ensures OldLines(lines + [x]) == OldLines(lines) + if x.edit == '+' then [] else [x.line]
    ensures NewLines(lines + [x]) == NewLines(lines) + if x.edit == '-' then [] else [x.line]
  {
    assert (lines + [x])[..|lines|] == lines;
  }

  lemma {:induction false} SidesOfConcat(a: seq<HunkLine>, b: seq<HunkLine>)
    ensures OldLines(a + b) == OldLines(a) + OldLines(b)
    ensures NewLines(a + b) == NewLines(a) + NewLines(b)
    decreases |b|
  {
    hide OldLines, NewLines;
    if b == [] {
      SidesOfNothing();
      assert a + b == a && OldLines(a) + [] == OldLines(a) && NewLines(a) + [] == NewLines(a);
    } else {
      var init, last := b[..|b| - 1], b[|b| - 1];
      SidesOfConcat(a, init);
      SidesOfSnoc(init, last);
      SidesOfSnoc(a + init, last);
      assert b == init + [last] && a + b == a + init + [last];
    }
  }

  lemma SidesOfNothing()
    ensures OldLines([]) == NewLines([]) == []
  {
  }

  lemma SidesOfOne(x: HunkLine)
    ensures OldLines([x]) == (if x.edit == '+' then [] else [x.line])
    ensures NewLines([x]) == (if x.edit == '-' then [] else [x.line])
  {
  }

  lemma {:induction false} SidesOfAdds(b: seq<HunkLine>)
    requires AllOf(b, '+')
    ensures OldLines(b) == [] && |NewLines(b)| == |b|
    decreases |b|
  {
    if b != [] { SidesOfAdds(b[..|b| - 1]); }
  }

  lemma HasEditsOfConcat(a: seq<HunkLine>, b: seq<HunkLine>)
    ensures HasEdits(a + b) <==> HasEdits(a) || HasEdits(b)
  {
    if k :| 0 <= k < |a| && a[k].edit != ' ' {
      assert (a + b)[k].edit != ' ';
    }
    if k :| 0 <= k < |b| && b[k].edit != ' ' {
      assert (a + b)[|a| + k].edit != ' ';
    }
  }

  /** Leading context stops at the first edit, whatever follows it. */
  lemma {:induction false} LeadingContextOfConcat(a: seq<HunkLine>, b: seq<HunkLine>)
    ensures LeadingContext(a + b) == if HasEdits(a) then LeadingContext(a) else |a| + LeadingContext(b)
    decreases |a|
  {
    if a == [] {
      assert a + b == b;
    } else if a[0].edit == ' ' {
      LeadingContextOfConcat(a[1..], b);
      assert (a + b)[1..] == a[1..] + b;
      if k :| 0 <= k < |a| && a[k].edit != ' ' {
        assert a[1..][k - 1].edit != ' ';
      }
    } else {
      assert HasEdits(a);
    }
  }

  // Which lines a hunk changes.

  /** The places of removed lines on the left and of added lines on the right, counted from 0. */
  datatype Changes = Changes(removed: set<int>, added: set<int>) {
    ghost function And(more: Changes): Changes {
      Changes(removed + more.removed, added + more.added)
    }
  }

  /** The change that one line makes where `l` lines of the left side and `r` of the right side
      come before it. */
  ghost function ChangeOfLine(edit: char, l: int, r: int): Changes {
    Changes(if edit == '-' then {l} else {}, if edit == '+' then {r} else {})
  }

  /** The changes of a hunk body that starts at (l, r). */
  ghost function ChangesIn(lines: seq<HunkLine>, l: int, r: int): Changes {
    if lines == [] then Changes({}, {}) else
      var init := lines[..|lines| - 1];
      ChangesIn(init, l, r).And(
        ChangeOfLine(lines[|lines| - 1].edit, l + |OldLines(init)|, r + |NewLines(init)|))
  }

  /** The changes of all hunks. */
  ghost function ChangesOf(hunks: seq<HunkData>): Changes {
    if hunks == [] then Changes({}, {}) else
      var h := hunks[|hunks| - 1];
      ChangesOf(hunks[..|hunks| - 1]).And(ChangesIn(h.lines, h.leftStart - 1, h.rightStart - 1))
  }

  lemma ChangesInSnoc(lines: seq<HunkLine>, x: HunkLine, l: int, r: int)
    ensures ChangesIn(lines + [x], l, r)
         == ChangesIn(lines, l, r).And(ChangeOfLine(x.edit, l + |OldLines(lines)|, r + |NewLines(lines)|))
  {
    assert (lines + [x])[..|lines|] == lines;
  }

  lemma AndIsAssociative(a: Changes, b: Changes, c: Changes)
    ensures a.And(b).And(c) == a.And(b.And(c)) && a.And(b).And(c) == a.And(c).And(b)
    ensures a.And(Changes({}, {})) == a && Changes({}, {}).And(a) == a
  {
  }

  /** Waiting additions are at the same places whatever is removed before them, and they move no
      place on the left. */
  lemma {:induction false} ChangesBeforeAdds(lines: seq<HunkLine>, x: HunkLine, adds: seq<HunkLine>, l: int, r: int)
    requires x.edit == '-' && AllOf(adds, '+')
    ensures ChangesIn(lines + [x] + adds, l, r)
         == ChangesIn(lines + adds, l, r).And(ChangeOfLine('-', l + |OldLines(lines)|, 0))
    decreases |adds|
  {
    hide OldLines, NewLines, ChangesIn;
    if adds == [] {
      assert lines + [x] + adds == lines + [x] && lines + adds == lines;
      ChangesInSnoc(lines, x, l, r);
    } else {
      var init, last := adds[..|adds| - 1], adds[|adds| - 1];
      ChangesBeforeAdds(lines, x, init, l, r);
      assert lines + [x] + adds == lines + [x] + init + [last] && lines + adds == lines + init + [last];
      ChangesInSnoc(lines + [x] + init, last, l, r);
      ChangesInSnoc(lines + init, last, l, r);
      SidesOfConcat(lines + [x], init);
      SidesOfConcat(lines, init);
      SidesOfSnoc(lines, x);
    }
  }
}

/** The header line of a hunk, and what can be read off it. */
module DiffHeaders {
  import opened Options
  import opened Bytes

  /** Where a hunk starts on one side, counted from 1, and how many lines it has there. */
  datatype Range = Range(start: nat, length: nat)

  datatype Header = Header(left: Option<Range>, right: Option<Range>)

  function Decimal(n: nat): string {
    (if n < 10 then "" else Decimal(n / 10)) + [HexDigit(n % 10)]
  }

  function RangeText(sign: char, range: Range): string {
    [sign] + Decimal(range.start) + "," + Decimal(range.length)
  }

  function HeaderText(header: Header): string {
    "@@ "
    + (if header.left.Some? then RangeText('-', header.left.value) else "")
    + (if header.left.Some? && header.right.Some? then " " else "")
    + (if header.right.Some? then RangeText('+', header.right.value) else "")
    + " @@\n"
  }

  // Reading.

  predicate IsDecimalDigit(c: char) { '0' <= c <= '9' }

  function DecimalRun(t: string): (n: nat)
    ensures n <= |t| && forall i :: 0 <= i < n ==> IsDecimalDigit(t[i])
    ensures n < |t| ==> !IsDecimalDigit(t[n])
  {
    if t == "" || !IsDecimalDigit(t[0]) then 0 else 1 + DecimalRun(t[1..])
  }

  function ReadNumber(t: string): Option<(nat, string)> {
    var n := DecimalRun(t);
    if n == 0 then None else Some((Number(t, n, 10), t[n..]))
  }

  function ReadRange(sign: char, t: string): Option<(Range, string)> {
    if t == "" || t[0] != sign then None
    else
      match ReadNumber(t[1..])
      case None => None
      case Some((start, rest)) =>
        if rest == "" || rest[0] != ',' then None
        else
          match ReadNumber(rest[1..])
          case None => None
          case Some((length, rest')) => Some((Range(start, length), rest'))
  }

  /** Either range may be missing; a blank stands between them. */
  function ReadHeader(t: string): Option<Header> {
    if |t| < 3 || t[..3] != "@@ " then None
    else
      var (left, rest) :=
        match ReadRange('-', t[3..])
        case None => (None, t[3..])
        case Some((range, rest)) => (Some(range), if |rest| >= 2 && rest[..2] == " +" then rest[1..] else rest);
      var (right, rest') :=
        match ReadRange('+', rest)
        case None => (None, rest)
        case Some((range, rest')) => (Some(range), rest');
      if rest' == " @@\n" then Some(Header(left, right)) else None
  }

  /** The printed number is the number. */
  lemma {:induction false} DecimalIsExact(n: nat)
    ensures var digits := Decimal(n);
            && digits != "" && (forall i :: 0 <= i < |digits| ==> IsDecimalDigit(digits[i]) && IsHexDigit(digits[i]))
            && Number(digits, |digits|, 10) == n
    decreases n
  {
    var digits := Decimal(n);
    assert HexDigit(n % 10) == digits[|digits| - 1];
    if n >= 10 {
      DecimalIsExact(n / 10);
      var front := Decimal(n / 10);
      assert digits == front + [HexDigit(n % 10)];
      NumberIgnoresRest(digits, front, |front|, 10);
      hide Decimal;
    } else {
      assert digits == [HexDigit(n)] && Number(digits, 0, 10) == 0;
    }
  }

  lemma RunOfDigits(digits: string, rest: string)
    requires forall i :: 0 <= i < |digits| ==> IsDecimalDigit(digits[i])
    requires rest == "" || !IsDecimalDigit(rest[0])
    ensures DecimalRun(digits + rest) == |digits|
  {
    hide DecimalRun;
    assert forall i :: 0 <= i < |digits| ==> (digits + rest)[i] == digits[i];
    assert rest != "" ==> (digits + rest)[|digits|] == rest[0];
  }

  lemma NumberReadsBack(n: nat, rest: string)
    requires rest == "" || !IsDecimalDigit(rest[0])
    ensures ReadNumber(Decimal(n) + rest) == Some((n, rest))
  {
    var digits := Decimal(n);
    DecimalIsExact(n);
    hide Decimal;
    RunOfDigits(digits, rest);
    NumberIgnoresRest(digits + rest, digits, |digits|, 10);
  }

  lemma RangeReadsBack(sign: char, range: Range, rest: string)
    requires rest == "" || !IsDecimalDigit(rest[0])
    ensures ReadRange(sign, RangeText(sign, range) + rest) == Some((range, rest))
  {
    hide Decimal, ReadNumber;
    var tail := "," + (Decimal(range.length) + rest);
    var t := RangeText(sign, range) + rest;
    assert t == [sign] + (Decimal(range.start) + tail) && t[1..] == Decimal(range.start) + tail;
    NumberReadsBack(range.start, tail);
    assert tail[1..] == Decimal(range.length) + rest;
    NumberReadsBack(range.length, rest);
  }

  /** What a header tells is what is read off it: both ranges, or one, or none. */
  lemma HeaderReadsBack(header: Header)
    ensures ReadHeader(HeaderText(header)) == Some(header)
  {
    hide RangeText, ReadRange;
    var t, end := HeaderText(header), " @@\n";
    assert t[..3] == "@@ ";
    if header.left.Some? {
      var left := RangeText('-', header.left.value);
      if header.right.Some? {
        var right := RangeText('+', header.right.value);
        var rest := " " + (right + end);
        assert t == "@@ " + (left + rest) && t[3..] == left + rest && rest[1..] == right + end;
        RangeReadsBack('-', header.left.value, rest);
        RangeStart('+', header.right.value, end);
        assert rest[..2] == " +";
        RangeReadsBack('+', header.right.value, end);
      } else {
        assert t == "@@ " + (left + end) && t[3..] == left + end && end[..2] == " @";
        RangeReadsBack('-', header.left.value, end);
        NoRange('+', end);
      }
    } else if header.right.Some? {
      var right := RangeText('+', header.right.value);
      assert t == "@@ " + (right + end) && t[3..] == right + end;
      RangeStart('+', header.right.value, end);
      NoRange('-', right + end);
      RangeReadsBack('+', header.right.value, end);
    } else {
      assert t == "@@ " + end && t[3..] == end;
      NoRange('-', end);
      NoRange('+', end);
    }
  }

  lemma RangeAppended(s: string, sign: char, range: Range)
    ensures s + [sign] + Decimal(range.start) + "," + Decimal(range.length) == s + RangeText(sign, range)
  {
    hide Decimal;
  }

  lemma SixPieces(s: string, a: string, b: string, c: string, d: string, e: string)
    ensures s + a + b + c + d + e == s + (a + b + c + d + e)
  {
  }

  lemma RangeStart(sign: char, range: Range, rest: string)
    ensures RangeText(sign, range) + rest != "" && (RangeText(sign, range) + rest)[0] == sign
  {
  }

  lemma NoRange(sign: char, t: string)
    requires t == "" || t[0] != sign
    ensures ReadRange(sign, t) == None
  {
  }
}

/** Google Test's unified diff. */
module UnifiedDiff {
  import opened Options
  import opened DiffHeaders
  import opened EditScripts
  import opened EditDistance
  import opened StringEdits
  import opened DiffHunks

  /** The state of one hunk under construction. Removals and additions wait in lists of their
      own until the next unchanged line. */
  class Hunk {
    const leftStart: nat
    const rightStart: nat
    var adds: nat
    var removes: nat
    var common: nat
    var hunk: seq<HunkLine>
    var hunkAdds: seq<HunkLine>
    var hunkRemoves: seq<HunkLine>

    /** The body as it would be printed now. */
    ghost function Contents(): seq<HunkLine>
      reads this
    {
      hunk + hunkRemoves + hunkAdds
    }

    /** Where the next line of each side goes, counted from 0. */
    ghost function LeftPlace(): int
      reads this
    {
      leftStart - 1 + |OldLines(Contents())|
    }

    ghost function RightPlace(): int
      reads this
    {
      rightStart - 1 + |NewLines(Contents())|
    }

    /** The lines of both sides that the hunk changes. */
    ghost function Changed(): Changes
      reads this
    {
      ChangesIn(Contents(), leftStart - 1, rightStart - 1)
    }

    ghost predicate ListsSorted()
      reads this
    {
      && AllOf(hunkRemoves, '-') && AllOf(hunkAdds, '+')
      && (hunk != [] ==> hunk[|hunk| - 1].edit == ' ')
      && RemovesBeforeAdds(hunk)
    }

    ghost predicate Valid()
      reads this
    {
      && ListsSorted()
      && |OldLines(Contents())| == removes + common
      && |NewLines(Contents())| == adds + common
      && (HasEdits(Contents()) <==> adds > 0 || removes > 0)
      && (HasLine(Contents(), '-') <==> removes > 0) && (HasLine(Contents(), '+') <==> adds > 0)
    }

    constructor (leftStart: nat, rightStart: nat)
      ensures Valid() && Contents() == [] && Changed() == Changes({}, {})
      ensures this.leftStart == leftStart && this.rightStart == rightStart
    {
      this.leftStart := leftStart;
      this.rightStart := rightStart;
      adds, removes, common := 0, 0, 0;
      hunk, hunkAdds, hunkRemoves := [], [], [];
    }

    method FlushEdits()
      requires ListsSorted()
      modifies `hunk, `hunkAdds, `hunkRemoves
      ensures hunk == old(Contents()) && hunkAdds == [] && hunkRemoves == []
      ensures RemovesBeforeAdds(hunk)
    {
      hunk := hunk + hunkRemoves;
      hunkRemoves := [];
      hunk := hunk + hunkAdds;
      hunkAdds := [];
      assert hunk == old(Contents());
    }

    method PushLine(edit: char, line: string)
      requires Valid() && edit in " -+"
      modifies this
      ensures Valid()
      ensures OldLines(Contents()) == old(OldLines(Contents())) + if edit == '+' then [] else [line]
      ensures NewLines(Contents()) == old(NewLines(Contents())) + if edit == '-' then [] else [line]
      ensures HasEdits(Contents()) <==> old(HasEdits(Contents())) || edit != ' '
      ensures LeadingContext(Contents())
           == old(LeadingContext(Contents())) + if edit == ' ' && !old(HasEdits(Contents())) then 1 else 0
      ensures TrailingContext(Contents()) == if edit == ' ' then old(TrailingContext(Contents())) + 1 else 0
      ensures LongestRun(Contents()) == Max(old(LongestRun(Contents())), TrailingContext(Contents()))
      ensures Changed() == old(Changed()).And(old(ChangeOfLine(edit, LeftPlace(), RightPlace())))
    {
      hide OldLines, NewLines, LeadingContext, TrailingContext, HasEdits, LongestRun, HasLine, ChangesIn;
      ghost var before := Contents();
      PushAddsLine(hunk, hunkRemoves, hunkAdds, HunkLine(edit, line), '-');
      PushAddsLine(hunk, hunkRemoves, hunkAdds, HunkLine(edit, line), '+');
      PushGrowsSides(hunk, hunkRemoves, hunkAdds, HunkLine(edit, line));
      PushKeepsContext(hunk, hunkRemoves, hunkAdds, HunkLine(edit, line));
      PushRecordsChange(hunk, hunkRemoves, hunkAdds, HunkLine(edit, line), leftStart - 1, rightStart - 1);
      match edit {
        case ' ' =>
          common := common + 1;
          FlushEdits();
          hunk := hunk + [HunkLine(' ', line)];
          assert Contents() == before + [HunkLine(' ', line)];
        case '-' =>
          removes := removes + 1;
          hunkRemoves := hunkRemoves + [HunkLine('-', line)];
        case _ =>
          adds := adds + 1;
          hunkAdds := hunkAdds + [HunkLine('+', line)];
      }
    }

    /** The hunk as data: what PrintTo writes. */
    method Print() returns (h: HunkData)
      requires Valid()
      modifies this
      ensures h == HunkData(leftStart, removes + common, rightStart, adds + common, old(Contents()))
      ensures h.leftLength == |OldLines(h.lines)| && h.rightLength == |NewLines(h.lines)|
      ensures RemovesBeforeAdds(h.lines)
      ensures ChangesIn(h.lines, h.leftStart - 1, h.rightStart - 1) == old(Changed())
    {
      FlushEdits();
      h := HunkData(leftStart, removes + common, rightStart, adds + common, hunk);
    }

    /** The header line. */
    method PrintHeader(ss: string) returns (stream: string)
      requires Valid()
      ensures stream
           == ss + HeaderText(HeaderOf(HunkData(leftStart, removes + common, rightStart, adds + common, Contents())))
    {
      hide RangeText, OldLines, NewLines, HasEdits, HasLine, Decimal;
      stream := ss + "@@ ";
      ghost var left, blank, right := "", "", "";
      if removes > 0 {
        left := RangeText('-', Range(leftStart, removes + common));
        RangeAppended(stream, '-', Range(leftStart, removes + common));
        stream := stream + "-" + Decimal(leftStart) + "," + Decimal(removes + common);
      }
      assert stream == ss + "@@ " + left;
      if removes > 0 && adds > 0 {
        blank := " ";
        stream := stream + " ";
      }
      assert stream == ss + "@@ " + left + blank;
      if adds > 0 {
        right := RangeText('+', Range(rightStart, adds + common));
        RangeAppended(stream, '+', Range(rightStart, adds + common));
        stream := stream + "+" + Decimal(rightStart) + "," + Decimal(adds + common);
      }
      assert stream == ss + "@@ " + left + blank + right;
      stream := stream + " @@\n";
      SixPieces(ss, "@@ ", left, blank, right, " @@\n");
    }

    method HasAnyEdits() returns (b: bool)
      requires Valid()
      ensures b <==> HasEdits(Contents())
    {
      b := adds > 0 || removes > 0;
    }
  }

  /** The body after pushing a line: an unchanged line goes to the end, a removal before the
      waiting additions. */
  ghost function Pushed(hunk: seq<HunkLine>, removes: seq<HunkLine>, adds: seq<HunkLine>, x: HunkLine): seq<HunkLine> {
    if x.edit == '-' then hunk + (removes + [x]) + adds
    else if x.edit == '+' then hunk + removes + (adds + [x])
    else hunk + removes + adds + [x]
  }

  lemma PushAddsLine(
    hunk: seq<HunkLine>, removes: seq<HunkLine>, adds: seq<HunkLine>, x: HunkLine, edit: char)
    ensures HasLine(Pushed(hunk, removes, adds, x), edit) <==> HasLine(hunk + removes + adds, edit) || x.edit == edit
  {
    hide HasLine;
    assert HasLine([x], edit) <==> x.edit == edit by { OneLine(x, edit); }
    HasLineOfConcat(hunk + removes, adds, edit);
    HasLineOfConcat(hunk, removes, edit);
    HasLineOfConcat(removes, [x], edit);
    HasLineOfConcat(adds, [x], edit);
    HasLineOfConcat(hunk, removes + [x], edit);
    HasLineOfConcat(hunk + (removes + [x]), adds, edit);
    HasLineOfConcat(hunk + removes, adds + [x], edit);
    HasLineOfConcat(hunk + removes + adds, [x], edit);
  }

  lemma OneLine(x: HunkLine, edit: char)
    ensures HasLine([x], edit) <==> x.edit == edit
  {
    assert [x][0] == x;
  }

  /** The header of a hunk: a side that it takes nothing from, or puts nothing on, is left out. */
  ghost function HeaderOf(h: HunkData): Header {
    Header(if HasLine(h.lines, '-') then Some(Range(h.leftStart, h.leftLength)) else None,
           if HasLine(h.lines, '+') then Some(Range(h.rightStart, h.rightLength)) else None)
  }

  /** What the header tells, and what it does not: both ranges can be read off exactly if the hunk
      both removes and adds lines. */
  lemma HeaderTellsBothExactly(h: HunkData)
    ensures ReadHeader(HeaderText(HeaderOf(h))) == Some(HeaderOf(h))
    ensures var both := Header(Some(Range(h.leftStart, h.leftLength)), Some(Range(h.rightStart, h.rightLength)));
            ReadHeader(HeaderText(HeaderOf(h))) == Some(both) <==> HasLine(h.lines, '-') && HasLine(h.lines, '+')
  {
    HeaderReadsBack(HeaderOf(h));
  }

  /** Reordering does not change either side. */
  lemma PushGrowsSides(hunk: seq<HunkLine>, removes: seq<HunkLine>, adds: seq<HunkLine>, x: HunkLine)
    requires AllOf(removes, '-') && AllOf(adds, '+') && x.edit in " -+"
    ensures var before, after := hunk + removes + adds, Pushed(hunk, removes, adds, x);
            && OldLines(after) == OldLines(before) + (if x.edit == '+' then [] else [x.line])
            && NewLines(after) == NewLines(before) + (if x.edit == '-' then [] else [x.line])
  {
    hide OldLines, NewLines;
    SidesOfOne(x);
    SidesOfConcat(hunk + removes, adds);
    SidesOfAdds(adds);
    SidesOfConcat(hunk + removes + adds, [x]);
    if x.edit == '-' {
      SidesOfConcat(hunk + (removes + [x]), adds);
      SidesOfConcat(hunk + removes, [x]);
      assert hunk + removes + [x] == hunk + (removes + [x]);
    } else if x.edit == '+' {
      assert hunk + removes + (adds + [x]) == hunk + removes + adds + [x];
    }
  }

  /** Nor which lines are removed and which are added. */
  lemma PushRecordsChange(
    hunk: seq<HunkLine>, removes: seq<HunkLine>, adds: seq<HunkLine>, x: HunkLine, l: int, r: int)
    requires AllOf(removes, '-') && AllOf(adds, '+') && x.edit in " -+"
    ensures var before, after := hunk + removes + adds, Pushed(hunk, removes, adds, x);
            ChangesIn(after, l, r)
            == ChangesIn(before, l, r).And(ChangeOfLine(x.edit, l + |OldLines(before)|, r + |NewLines(before)|))
  {
    hide OldLines, NewLines, ChangesIn;
    if x.edit == '-' {
      assert hunk + (removes + [x]) + adds == hunk + removes + [x] + adds;
      ChangesBeforeAdds(hunk + removes, x, adds, l, r);
      SidesOfConcat(hunk + removes, adds);
      SidesOfAdds(adds);
    } else {
      if x.edit == '+' {
        assert hunk + removes + (adds + [x]) == hunk + removes + adds + [x];
      }
      ChangesInSnoc(hunk + removes + adds, x, l, r);
    }
  }

  lemma PushKeepsContext(hunk: seq<HunkLine>, removes: seq<HunkLine>, adds: seq<HunkLine>, x: HunkLine)
    requires AllOf(removes, '-') && AllOf(adds, '+') && x.edit in " -+"
    ensures var before, after := hunk + removes + adds, Pushed(hunk, removes, adds, x);
            && (HasEdits(after) <==> HasEdits(before) || x.edit != ' ')
            && LeadingContext(after)
            == LeadingContext(before) + (if x.edit == ' ' && !HasEdits(before) then 1 else 0)
            && TrailingContext(after) == (if x.edit == ' ' then TrailingContext(before) + 1 else 0)
            && LongestRun(after) == Max(LongestRun(before), TrailingContext(after))
  {
    hide HasEdits, LeadingContext, TrailingContext, LongestRun;
    if x.edit == ' ' {
      UnchangedLineAddsContext(hunk + removes + adds, x);
    } else {
      var r, a := if x.edit == '-' then removes + [x] else removes, if x.edit == '+' then adds + [x] else adds;
      EditsAddNoContext(hunk, removes, adds);
      EditsAddNoContext(hunk, r, a);
    }
  }

  lemma UnchangedLineAddsContext(body: seq<HunkLine>, x: HunkLine)
    requires x.edit == ' '
    ensures HasEdits(body + [x]) <==> HasEdits(body)
    ensures LeadingContext(body + [x]) == LeadingContext(body) + if HasEdits(body) then 0 else 1
    ensures TrailingContext(body + [x]) == TrailingContext(body) + 1
    ensures LongestRun(body + [x]) == Max(LongestRun(body), TrailingContext(body + [x]))
  {
    LeadingContextOfConcat(body, [x]);
    LeadingContextOfConcat(body, []);
    HasEditsOfConcat(body, [x]);
    assert !HasEdits([x]) && LeadingContext([x]) == 1;
    hide HasEdits, LeadingContext;
    assert body + [] == body && (body + [x])[..|body|] == body;
  }

  /** Removals and additions after a body end its context. */
  lemma EditsAddNoContext(hunk: seq<HunkLine>, removes: seq<HunkLine>, adds: seq<HunkLine>)
    requires AllOf(removes, '-') && AllOf(adds, '+')
    ensures LeadingContext(hunk + removes + adds) == LeadingContext(hunk)
    ensures HasEdits(hunk + removes + adds) <==> HasEdits(hunk) || removes + adds != []
    ensures removes + adds != [] ==> TrailingContext(hunk + removes + adds) == 0
    ensures LongestRun(hunk + removes + adds) == LongestRun(hunk)
  {
    var edits := removes + adds;
    EditsAddNoRun(hunk, edits);
    LeadingContextOfConcat(hunk, edits);
    LeadingContextOfConcat(hunk, []);
    HasEditsOfConcat(hunk, edits);
    assert hunk + [] == hunk && hunk + removes + adds == hunk + edits;
    if edits != [] {
      assert edits[0].edit != ' ' && edits[|edits| - 1].edit != ' ';
    }
  }

  lemma {:induction false} EditsAddNoRun(hunk: seq<HunkLine>, edits: seq<HunkLine>)
    requires forall k :: 0 <= k < |edits| ==> edits[k].edit != ' '
    ensures LongestRun(hunk + edits) == LongestRun(hunk)
    decreases |edits|
  {
    if edits == [] {
      assert hunk + edits == hunk;
    } else {
      EditsAddNoRun(hunk, edits[..|edits| - 1]);
      assert (hunk + edits)[..|hunk + edits| - 1] == hunk + edits[..|edits| - 1];
    }
  }

  // Reading the edit script.

  lemma {:induction false} PosBounded(edits: seq<EditType>, k: nat)
    requires k <= |edits|
    ensures LeftPos(edits, k) <= LeftPos(edits, |edits|) && RightPos(edits, k) <= RightPos(edits, |edits|)
    decreases |edits| - k
  {
    if k < |edits| {
      PosBounded(edits, k + 1);
    }
  }

  /** The next edit moves each side on by what it consumes or produces there. */
  lemma AdvanceSides(edits: seq<EditType>, left: seq<string>, right: seq<string>, k: nat, l0: nat, r0: nat)
    requires IsScript(edits, left, right, |left|, |right|) && k < |edits|
    requires l0 <= LeftPos(edits, k) && r0 <= RightPos(edits, k)
    ensures EditFits(edits, left, right, k)
    ensures var l, r := LeftPos(edits, k), RightPos(edits, k);
            && LeftPos(edits, k + 1) == l + (if edits[k].Add? then 0 else 1) <= |left|
            && RightPos(edits, k + 1) == r + (if edits[k].Remove? then 0 else 1) <= |right|
            && left[l0..LeftPos(edits, k + 1)] == left[l0..l] + (if edits[k].Add? then [] else [left[l]])
            && right[r0..RightPos(edits, k + 1)] == right[r0..r] + (if edits[k].Remove? then [] else [right[r]])
  {
    assert EditFits(edits, left, right, k);
    PosBounded(edits, k + 1);
  }

  lemma SliceOfSlice<T>(s: seq<T>, start: nat, end: nat, a: nat, b: nat)
    requires start <= end <= |s| && a <= b <= end - start
    ensures s[start..end][a..b] == s[start + a..start + b]
  {
    var x, y := s[start..end][a..b], s[start + a..start + b];
    forall k | 0 <= k < b - a
      ensures x[k] == y[k]
    {
      assert x[k] == s[start..end][a + k] == s[start + a + k];
    }
  }

  /** A run of equal lines splits into the gap before a hunk and the hunk's leading context. */
  lemma SplitGap(left: seq<string>, right: seq<string>, l: nat, r: nat, l_i: nat, r_i: nat, prefix: nat)
    requires l + prefix <= l_i <= |left| && r + prefix <= r_i <= |right| && l_i - l == r_i - r
    requires left[l..l_i] == right[r..r_i]
    ensures left[l..l_i - prefix] == right[r..r_i - prefix]
    ensures left[l_i - prefix..l_i] == right[r_i - prefix..r_i]
  {
    var n := l_i - l;
    SliceOfSlice(left, l, l_i, 0, n - prefix);
    SliceOfSlice(right, r, r_i, 0, n - prefix);
    SliceOfSlice(left, l, l_i, n - prefix, n);
    SliceOfSlice(right, r, r_i, n - prefix, n);
  }

  ghost predicate AllMatch(edits: seq<EditType>, from: nat, until: nat) {
    forall k :: from <= k < until && k < |edits| ==> edits[k].Match?
  }

  /** A run of matches moves both sides on alike, over equal lines. */
  lemma {:induction false} MatchesAlign(
    edits: seq<EditType>, left: seq<string>, right: seq<string>, from: nat, until: nat)
    requires IsScript(edits, left, right, |left|, |right|)
    requires from <= until <= |edits| && AllMatch(edits, from, until)
    ensures LeftPos(edits, until) == LeftPos(edits, from) + until - from <= |left|
    ensures RightPos(edits, until) == RightPos(edits, from) + until - from <= |right|
    ensures left[LeftPos(edits, from)..LeftPos(edits, until)] == right[RightPos(edits, from)..RightPos(edits, until)]
    decreases until
  {
    PosBounded(edits, until);
    if from < until {
      MatchesAlign(edits, left, right, from, until - 1);
      assert EditFits(edits, left, right, until - 1);
      var l, r := LeftPos(edits, until - 1), RightPos(edits, until - 1);
      assert left[LeftPos(edits, from)..l + 1] == left[LeftPos(edits, from)..l] + [left[l]];
      assert right[RightPos(edits, from)..r + 1] == right[RightPos(edits, from)..r] + [right[r]];
    }
  }

  // Which lines a script changes.

  /** The change that one edit makes at (l, r). */
  ghost function ChangeOfEdit(edit: EditType, l: int, r: int): Changes {
    Changes(if edit.Remove? || edit.Replace? then {l} else {}, if edit.Add? || edit.Replace? then {r} else {})
  }

  /** The changes of the edits between two places of a script. */
  ghost function ChangesBy(edits: seq<EditType>, from: nat, until: nat): Changes
    requires from <= until <= |edits|
    decreases until
  {
    if until == from then Changes({}, {}) else
      ChangesBy(edits, from, until - 1).And(
        ChangeOfEdit(edits[until - 1], LeftPos(edits, until - 1), RightPos(edits, until - 1)))
  }

  lemma {:induction false} ChangesBySplit(edits: seq<EditType>, from: nat, middle: nat, until: nat)
    requires from <= middle <= until <= |edits|
    ensures ChangesBy(edits, from, until) == ChangesBy(edits, from, middle).And(ChangesBy(edits, middle, until))
    decreases until
  {
    if middle < until {
      ChangesBySplit(edits, from, middle, until - 1);
    }
  }

  lemma {:induction false} MatchesChangeNothing(edits: seq<EditType>, from: nat, until: nat)
    requires from <= until <= |edits| && AllMatch(edits, from, until)
    ensures ChangesBy(edits, from, until) == Changes({}, {})
    decreases until
  {
    if from < until {
      MatchesChangeNothing(edits, from, until - 1);
    }
  }

  /** The `k`-th edit consumes line `i` of the left side, counted from 0. */
  ghost predicate Consumes(edits: seq<EditType>, k: int, i: int) {
    0 <= k < |edits| && !edits[k].Add? && LeftPos(edits, k) == i
  }

  /** The `k`-th edit produces line `j` of the right side. */
  ghost predicate Produces(edits: seq<EditType>, k: int, j: int) {
    0 <= k < |edits| && !edits[k].Remove? && RightPos(edits, k) == j
  }

  /** The edit that consumes line `i` is Remove or Replace. */
  ghost predicate RemovesLine(edits: seq<EditType>, i: int) {
    exists k :: Consumes(edits, k, i) && (edits[k].Remove? || edits[k].Replace?)
  }

  /** The edit that produces line `j` is Add or Replace. */
  ghost predicate AddsLine(edits: seq<EditType>, j: int) {
    exists k :: Produces(edits, k, j) && (edits[k].Add? || edits[k].Replace?)
  }

  /** Places never go back, and go on where an edit consumes or produces. */
  lemma {:induction false} PlacesGoOn(edits: seq<EditType>, j: nat, k: nat)
    requires j < k <= |edits|
    ensures LeftPos(edits, j) + (if edits[j].Add? then 0 else 1) <= LeftPos(edits, k)
    ensures RightPos(edits, j) + (if edits[j].Remove? then 0 else 1) <= RightPos(edits, k)
    decreases k
  {
    if j < k - 1 {
      PlacesGoOn(edits, j, k - 1);
    }
  }

  /** Some edit consumes, or produces, each line. */
  lemma {:induction false} EveryLineHasAnEdit(edits: seq<EditType>, n: nat, i: nat)
    requires n <= |edits|
    ensures i < LeftPos(edits, n) ==> exists k :: Consumes(edits, k, i)
    ensures i < RightPos(edits, n) ==> exists k :: Produces(edits, k, i)
    decreases n
  {
    if n > 0 {
      EveryLineHasAnEdit(edits, n - 1, i);
      assert i == LeftPos(edits, n - 1) < LeftPos(edits, n) ==> Consumes(edits, n - 1, i);
      assert i == RightPos(edits, n - 1) < RightPos(edits, n) ==> Produces(edits, n - 1, i);
    }
  }

  /** A line of the left side is consumed by one edit and no other, and a line of the right side is
      produced by one; so a line is removed, or added, if and only if that edit is no match. */
  lemma OneEditPerLine(edits: seq<EditType>, i: nat)
    ensures i < LeftPos(edits, |edits|) ==> exists k :: Consumes(edits, k, i)
    ensures i < RightPos(edits, |edits|) ==> exists k :: Produces(edits, k, i)
    ensures forall k :: Consumes(edits, k, i) ==> (RemovesLine(edits, i) <==> !edits[k].Match?)
    ensures forall k :: Produces(edits, k, i) ==> (AddsLine(edits, i) <==> !edits[k].Match?)
  {
    hide LeftPos, RightPos;
    EveryLineHasAnEdit(edits, |edits|, i);
    forall j: int, k: int | 0 <= j < k < |edits|
      ensures !(Consumes(edits, j, i) && Consumes(edits, k, i))
      ensures !(Produces(edits, j, i) && Produces(edits, k, i))
    {
      PlacesGoOn(edits, j, k);
    }
  }

  /** The changes of a script, line by line. */
  lemma {:induction false} ChangesByMeans(edits: seq<EditType>, n: nat, i: int)
    requires n <= |edits|
    ensures i in ChangesBy(edits, 0, n).removed
            <==> exists k :: k < n && Consumes(edits, k, i) && (edits[k].Remove? || edits[k].Replace?)
    ensures i in ChangesBy(edits, 0, n).added
            <==> exists k :: k < n && Produces(edits, k, i) && (edits[k].Add? || edits[k].Replace?)
    decreases n
  {
    hide LeftPos, RightPos;
    if n > 0 {
      ChangesByMeans(edits, n - 1, i);
      assert i == LeftPos(edits, n - 1) && !edits[n - 1].Add? ==> Consumes(edits, n - 1, i);
      assert i == RightPos(edits, n - 1) && !edits[n - 1].Remove? ==> Produces(edits, n - 1, i);
    }
  }

  lemma {:induction false} ChangesByBounded(edits: seq<EditType>, n: nat)
    requires n <= |edits|
    ensures forall i :: i in ChangesBy(edits, 0, n).removed ==> i < LeftPos(edits, n)
    ensures forall j :: j in ChangesBy(edits, 0, n).added ==> j < RightPos(edits, n)
    decreases n
  {
    if n > 0 {
      ChangesByBounded(edits, n - 1);
    }
  }

  /** How many lines a script changes: one for each edit, and one more for each replacement. */
  lemma {:induction false} ChangesByCount(edits: seq<EditType>, n: nat)
    requires n <= |edits|
    ensures |ChangesBy(edits, 0, n).removed| + |ChangesBy(edits, 0, n).added|
         == NumEdits(edits[..n]) + NumReplaces(edits[..n])
    decreases n
  {
    hide LeftPos, RightPos, ChangesBy, NumEdits, NumReplaces;
    if n == 0 {
      NoChangeYet(edits, 0);
      CountsOfNothing();
    } else {
      ChangesByCount(edits, n - 1);
      ChangesByBounded(edits, n - 1);
      OneMoreChange(edits, 0, n - 1);
      assert edits[..n] == edits[..n - 1] + [edits[n - 1]];
      CountsOfSnoc(edits[..n - 1], edits[n - 1]);
    }
  }

  lemma CountsOfNothing()
    ensures NumEdits([]) == NumReplaces([]) == 0
  {
  }

  lemma CountsOfSnoc(edits: seq<EditType>, last: EditType)
    ensures NumEdits(edits + [last]) == NumEdits(edits) + if last.Match? then 0 else 1
    ensures NumReplaces(edits + [last]) == NumReplaces(edits) + if last.Replace? then 1 else 0
  {
    assert (edits + [last])[..|edits|] == edits;
  }

  /** Equal sequences have a script of matches only. */
  lemma EqualSidesAllMatch(left: seq<string>)
    ensures AllMatch(Script(left, left, |left|, |left|), 0, |Script(left, left, |left|, |left|)|)
  {
    var edits := Script(left, left, |left|, |left|);
    hide Cost, Script, NumReplaces;
    CostIsZeroIffEqual(left, left, |left|, |left|);
    ScriptWeighsItsCost(left, left, |left|, |left|);
    NoEditsAllMatch(edits);
  }

  lemma {:induction false} NoEditsAllMatch(edits: seq<EditType>)
    requires NumEdits(edits) == 0
    ensures AllMatch(edits, 0, |edits|)
    decreases |edits|
  {
    if edits != [] {
      NoEditsAllMatch(edits[..|edits| - 1]);
    }
  }

  lemma FitAppend(left: seq<string>, right: seq<string>, hunks: seq<HunkData>, h: HunkData)
    requires Fit(left, right, hunks)
    requires LeftEnd(hunks) <= h.leftStart - 1 && RightEnd(hunks) <= h.rightStart - 1
    requires Occupies(left, h.leftStart - 1, OldLines(h.lines)) && Occupies(right, h.rightStart - 1, NewLines(h.lines))
    ensures Fit(left, right, hunks + [h])
    ensures 0 <= LeftEnd(hunks) && 0 <= RightEnd(hunks)
    ensures RightEnd(hunks + [h]) == h.rightStart - 1 + |NewLines(h.lines)| <= |right|
    ensures NewLines(h.lines) == right[h.rightStart - 1..RightEnd(hunks + [h])]
    ensures Patched(left, right, hunks + [h])
         == Patched(left, right, hunks) + left[LeftEnd(hunks)..h.leftStart - 1] + NewLines(h.lines)
  {
    hide *;
    FitEnds(left, right, hunks);
    EndsOfAppend(hunks, h);
    OccupiesMeans(left, h.leftStart - 1, OldLines(h.lines));
    OccupiesMeans(right, h.rightStart - 1, NewLines(h.lines));
    FitUnfolds(left, right, hunks, h);
  }

  lemma OccupiesMeans(side: seq<string>, from: int, lines: seq<string>)
    requires Occupies(side, from, lines)
    ensures 0 <= from && from + |lines| <= |side| && lines == side[from..from + |lines|]
  {
  }

  lemma FitUnfolds(left: seq<string>, right: seq<string>, hunks: seq<HunkData>, h: HunkData)
    requires Fit(left, right, hunks) && 0 <= LeftEnd(hunks) <= h.leftStart - 1 <= |left|
    requires RightEnd(hunks) <= h.rightStart - 1
    requires Occupies(left, h.leftStart - 1, OldLines(h.lines)) && Occupies(right, h.rightStart - 1, NewLines(h.lines))
    ensures Fit(left, right, hunks + [h])
    ensures Patched(left, right, hunks + [h])
         == Patched(left, right, hunks) + left[LeftEnd(hunks)..h.leftStart - 1] + NewLines(h.lines)
  {
    hide OldLines, NewLines, Occupies, LeftEnd, RightEnd;
    assert (hunks + [h])[..|hunks|] == hunks && (hunks + [h])[|hunks|] == h;
  }

  lemma EndsOfAppend(hunks: seq<HunkData>, h: HunkData)
    ensures LeftEnd(hunks + [h]) == h.leftStart - 1 + |OldLines(h.lines)|
    ensures RightEnd(hunks + [h]) == h.rightStart - 1 + |NewLines(h.lines)|
  {
    hide OldLines, NewLines;
    assert (hunks + [h])[|hunks|] == h;
  }

  /** Appending a hunk after a stretch where both sides agree. */
  lemma AppendHunk(left: seq<string>, right: seq<string>, hunks: seq<HunkData>, h: HunkData)
    requires Fit(left, right, hunks) && Patched(left, right, hunks) == right[..RightEnd(hunks)]
    requires LeftEnd(hunks) <= h.leftStart - 1 && RightEnd(hunks) <= h.rightStart - 1
    requires Occupies(left, h.leftStart - 1, OldLines(h.lines)) && Occupies(right, h.rightStart - 1, NewLines(h.lines))
    requires left[LeftEnd(hunks)..h.leftStart - 1] == right[RightEnd(hunks)..h.rightStart - 1]
    ensures Fit(left, right, hunks + [h])
    ensures Patched(left, right, hunks + [h]) == right[..RightEnd(hunks + [h])]
  {
    FitEnds(left, right, hunks);
    hide *;
    FitAppend(left, right, hunks, h);
    ThreePieces(right, RightEnd(hunks), h.rightStart - 1, RightEnd(hunks + [h]));
  }

  lemma ThreePieces<T>(s: seq<T>, a: int, b: int, c: int)
    requires 0 <= a <= b <= c <= |s|
    ensures s[..c] == s[..a] + s[a..b] + s[b..c]
  {
  }

  /** Finds the first edit at or after `e`. */
  method SkipMatches(edits: seq<EditType>, left: seq<string>, right: seq<string>, e: nat, l: nat, r: nat)
    returns (l_i: nat, r_i: nat, edit_i: nat)
    requires IsScript(edits, left, right, |left|, |right|)
    requires e <= |edits| && l == LeftPos(edits, e) && r == RightPos(edits, e)
    ensures e <= edit_i <= |edits| && (edit_i < |edits| ==> !edits[edit_i].Match? && !AllMatch(edits, 0, |edits|))
    ensures l_i == LeftPos(edits, edit_i) <= |left| && r_i == RightPos(edits, edit_i) <= |right|
    ensures l_i - l == r_i - r == edit_i - e && left[l..l_i] == right[r..r_i]
    ensures edit_i == |edits| ==> left[l..] == right[r..]
    ensures AllMatch(edits, e, edit_i)
  {
    l_i, r_i, edit_i := l, r, e;
    while edit_i < |edits| && edits[edit_i] == Match
      invariant e <= edit_i <= |edits| && AllMatch(edits, e, edit_i)
      invariant l_i == LeftPos(edits, edit_i) && r_i == RightPos(edits, edit_i)
    {
      AdvanceSides(edits, left, right, edit_i, 0, 0);
      l_i, r_i, edit_i := l_i + 1, r_i + 1, edit_i + 1;
    }
    MatchesAlign(edits, left, right, e, edit_i);
    if edit_i == |edits| {
      WholeScript(edits, left, right);
      assert left[l..] == left[l..l_i] && right[r..] == right[r..r_i];
    }
  }

  lemma EmptyBody()
    ensures OldLines([]) == NewLines([]) == [] && !HasEdits([])
    ensures LeadingContext([]) == TrailingContext([]) == LongestRun([]) == 0
  {
  }

  /** Opens a hunk at position (l, r) with the unchanged lines before it. */
  method OpenHunk(left: seq<string>, l: nat, r: nat, context: nat) returns (hunk: Hunk)
    requires l <= |left| && Min(l, context) <= r
    ensures fresh(hunk) && hunk.Valid() && !HasEdits(hunk.Contents())
    ensures hunk.leftStart == l - Min(l, context) + 1 && hunk.rightStart == r - Min(l, context) + 1
    ensures OldLines(hunk.Contents()) == NewLines(hunk.Contents()) == left[l - Min(l, context)..l]
    ensures LeadingContext(hunk.Contents()) == Min(l, context) && LongestRun(hunk.Contents()) <= context
    ensures hunk.Changed() == Changes({}, {})
  {
    hide OldLines, NewLines, LeadingContext, TrailingContext, LongestRun, HasEdits, RemovesBeforeAdds;
    hide Hunk.Valid, Hunk.Contents, Hunk.Changed;
    EmptyBody();
    var prefixContext := Min(l, context);
    hunk := new Hunk(l - prefixContext + 1, r - prefixContext + 1);
    var i := prefixContext;
    while i > 0
      invariant 0 <= i <= prefixContext
      invariant fresh(hunk) && hunk.Valid() && !HasEdits(hunk.Contents())
      invariant OldLines(hunk.Contents()) == NewLines(hunk.Contents()) == left[l - prefixContext..l - i]
      invariant LeadingContext(hunk.Contents()) == TrailingContext(hunk.Contents()) == prefixContext - i
      invariant LongestRun(hunk.Contents()) <= prefixContext
      invariant hunk.Changed() == Changes({}, {})
    {
      hunk.PushLine(' ', left[l - i]);
      i := i - 1;
    }
  }

  /** One edit, pushed: both sides of the hunk follow the script. */
  method PushEdit(hunk: Hunk, edits: seq<EditType>, left: seq<string>, right: seq<string>, e: nat, l: nat, r: nat)
    requires hunk.Valid() && e < |edits| && EditFits(edits, left, right, e)
    requires l == LeftPos(edits, e) && r == RightPos(edits, e)
    modifies hunk
    ensures hunk.Valid()
    ensures OldLines(hunk.Contents())
         == old(OldLines(hunk.Contents())) + if edits[e].Add? then [] else [left[l]]
    ensures NewLines(hunk.Contents())
         == old(NewLines(hunk.Contents())) + if edits[e].Remove? then [] else [right[r]]
    ensures HasEdits(hunk.Contents()) <==> old(HasEdits(hunk.Contents())) || !edits[e].Match?
    ensures old(HasEdits(hunk.Contents())) || !edits[e].Match? ==>
              LeadingContext(hunk.Contents()) == old(LeadingContext(hunk.Contents()))
    ensures TrailingContext(hunk.Contents())
         == if edits[e].Match? then old(TrailingContext(hunk.Contents())) + 1 else 0
    ensures LongestRun(hunk.Contents()) == Max(old(LongestRun(hunk.Contents())), TrailingContext(hunk.Contents()))
    ensures hunk.Changed()
         == old(hunk.Changed()).And(old(ChangeOfEdit(edits[e], hunk.LeftPlace(), hunk.RightPlace())))
  {
    hide Hunk.Changed, Hunk.Valid, Hunk.Contents, OldLines, NewLines, LeftPos, RightPos;
    hide LeadingContext, TrailingContext, LongestRun, HasEdits;
    var edit := edits[e];
    if edit == Match || edit == Remove || edit == Replace {
      hunk.PushLine(if edit == Match then ' ' else '-', left[l]);
    }
    if edit == Add || edit == Replace {
      hunk.PushLine('+', right[r]);
    }
  }

  /** Pushes edits from `e` on, until enough unchanged lines follow and the next edit is far, or
      the script is over. Returns the position reached. */
  method FillHunk(
    hunk: Hunk, edits: seq<EditType>, left: seq<string>, right: seq<string>, context: nat, e: nat, l: nat, r: nat)
    returns (l_i: nat, r_i: nat, edit_i: nat)
    requires IsScript(edits, left, right, |left|, |right|)
    requires hunk.Valid() && !HasEdits(hunk.Contents())
    requires e < |edits| && !edits[e].Match?
    requires 1 <= hunk.leftStart <= l + 1 && l == LeftPos(edits, e) <= |left|
    requires 1 <= hunk.rightStart <= r + 1 && r == RightPos(edits, e) <= |right|
    requires OldLines(hunk.Contents()) == left[hunk.leftStart - 1..l]
    requires NewLines(hunk.Contents()) == right[hunk.rightStart - 1..r]
    requires LongestRun(hunk.Contents()) <= context
    requires hunk.Changed() == Changes({}, {})
    modifies hunk
    ensures e <= edit_i <= |edits| && hunk.Changed() == ChangesBy(edits, e, edit_i)
    ensures l_i == LeftPos(edits, edit_i) <= |left| && r_i == RightPos(edits, edit_i) <= |right|
    ensures hunk.Valid() && LeadingContext(hunk.Contents()) == old(LeadingContext(hunk.Contents()))
    ensures hunk.leftStart - 1 <= l_i && OldLines(hunk.Contents()) == left[hunk.leftStart - 1..l_i]
    ensures hunk.rightStart - 1 <= r_i && NewLines(hunk.Contents()) == right[hunk.rightStart - 1..r_i]
    ensures context == 0 ==> edit_i == e && !HasEdits(hunk.Contents())
    ensures context > 0 ==> edit_i > e && HasEdits(hunk.Contents()) && TrailingContext(hunk.Contents()) <= context
    ensures context > 0 ==> LongestRun(hunk.Contents()) < 2 * context
    ensures context > 0 && edit_i < |edits| ==>
              && TrailingContext(hunk.Contents()) == context && l_i >= context && r_i >= context
              && AllMatch(edits, edit_i, edit_i + context)
  {
    hide *;
    l_i, r_i, edit_i := l, r, e;
    var nSuffix := 0;
    ghost var leading, next: nat := LeadingContext(hunk.Contents()), e;
    NoChangeYet(edits, e);
    while edit_i < |edits|
      invariant e <= edit_i <= |edits|
      invariant l_i == LeftPos(edits, edit_i) <= |left| && r_i == RightPos(edits, edit_i) <= |right|
      invariant hunk.Valid() && LeadingContext(hunk.Contents()) == leading
      invariant hunk.Changed() == ChangesBy(edits, e, edit_i)
      invariant hunk.leftStart - 1 <= l_i && OldLines(hunk.Contents()) == left[hunk.leftStart - 1..l_i]
      invariant hunk.rightStart - 1 <= r_i && NewLines(hunk.Contents()) == right[hunk.rightStart - 1..r_i]
      invariant HasEdits(hunk.Contents()) <==> edit_i > e
      invariant edit_i > e ==> context > 0 && TrailingContext(hunk.Contents()) == nSuffix
      invariant edit_i == e ==> nSuffix == 0
      invariant 0 <= nSuffix <= l_i && nSuffix <= r_i
      invariant context > 0 ==> LongestRun(hunk.Contents()) < 2 * context
      invariant nSuffix > context ==>
                  edit_i <= next < |edits| && nSuffix + next - edit_i < 2 * context && !edits[next].Match?
    {
      if nSuffix >= context {
        var it := FindEdit(edits, edit_i);
        MatchesStopAtEdit(edits, edit_i, it, next, context);
        if it == |edits| || it - edit_i >= context {
          break;
        }
        next := it;
      }
      AdvanceSides(edits, left, right, edit_i, hunk.leftStart - 1, hunk.rightStart - 1);
      PlacesReached(hunk, left, right, l_i, r_i);
      OneMoreChange(edits, e, edit_i);
      PushEdit(hunk, edits, left, right, edit_i, l_i, r_i);
      nSuffix := if edits[edit_i] == Match then nSuffix + 1 else 0;
      l_i := l_i + if edits[edit_i] != Add then 1 else 0;
      r_i := r_i + if edits[edit_i] != Remove then 1 else 0;
      edit_i := edit_i + 1;
    }
  }

  lemma NoChangeYet(edits: seq<EditType>, from: nat)
    requires from <= |edits|
    ensures ChangesBy(edits, from, from) == Changes({}, {})
  {
  }

  lemma OneMoreChange(edits: seq<EditType>, from: nat, k: nat)
    requires from <= k < |edits|
    ensures ChangesBy(edits, from, k + 1)
         == ChangesBy(edits, from, k).And(ChangeOfEdit(edits[k], LeftPos(edits, k), RightPos(edits, k)))
  {
  }

  /** A hunk whose sides end at (l, r) goes on there. */
  lemma PlacesReached(hunk: Hunk, left: seq<string>, right: seq<string>, l: nat, r: nat)
    requires 0 <= hunk.leftStart - 1 <= l <= |left| && 0 <= hunk.rightStart - 1 <= r <= |right|
    requires OldLines(hunk.Contents()) == left[hunk.leftStart - 1..l]
    requires NewLines(hunk.Contents()) == right[hunk.rightStart - 1..r]
    ensures hunk.LeftPlace() == l && hunk.RightPlace() == r
  {
    hide OldLines, NewLines, Hunk.Contents;
  }

  /** The next edit at or after `from`, or the end. */
  method FindEdit(edits: seq<EditType>, from: nat) returns (it: nat)
    requires from <= |edits|
    ensures from <= it <= |edits| && AllMatch(edits, from, it) && (it < |edits| ==> !edits[it].Match?)
  {
    it := from;
    while it < |edits| && edits[it] == Match
      invariant from <= it <= |edits| && AllMatch(edits, from, it)
    {
      it := it + 1;
    }
  }

  lemma MatchesStopAtEdit(edits: seq<EditType>, from: nat, it: nat, next: nat, context: nat)
    requires from <= it <= |edits| && AllMatch(edits, from, it)
    ensures from <= next < |edits| && !edits[next].Match? ==> it <= next
    ensures it == |edits| || it - from >= context ==> AllMatch(edits, from, from + context)
  {
  }

  /** The hunk is sound on both sides up to (l, r), and the next edit is far from there. */
  ghost predicate IsFinished(
    h: HunkData, edits: seq<EditType>, left: seq<string>, right: seq<string>, context: nat, l: nat, r: nat, e: nat)
  {
    && WellFormed(h, |left|, context)
    && Occupies(left, h.leftStart - 1, OldLines(h.lines)) && Occupies(right, h.rightStart - 1, NewLines(h.lines))
    && l == h.leftStart - 1 + |OldLines(h.lines)| && r == h.rightStart - 1 + |NewLines(h.lines)|
    && (e == |edits| || (l >= context && r >= context && AllMatch(edits, e, e + context)))
  }

  /** Fills an opened hunk and takes it as data. */
  method FinishHunk(
    hunk: Hunk, edits: seq<EditType>, left: seq<string>, right: seq<string>, context: nat, e: nat, l: nat, r: nat)
    returns (h: HunkData, hasEdits: bool, l_i: nat, r_i: nat, edit_i: nat)
    requires IsScript(edits, left, right, |left|, |right|)
    requires hunk.Valid() && !HasEdits(hunk.Contents())
    requires e < |edits| && !edits[e].Match?
    requires 1 <= hunk.leftStart <= l + 1 && l == LeftPos(edits, e) <= |left|
    requires 1 <= hunk.rightStart <= r + 1 && r == RightPos(edits, e) <= |right|
    requires OldLines(hunk.Contents()) == left[hunk.leftStart - 1..l]
    requires NewLines(hunk.Contents()) == right[hunk.rightStart - 1..r]
    requires LeadingContext(hunk.Contents()) <= context
    requires LeadingContext(hunk.Contents()) == context || hunk.leftStart == 1
    requires LongestRun(hunk.Contents()) <= context
    requires hunk.Changed() == Changes({}, {})
    modifies hunk
    ensures h.leftStart == hunk.leftStart && h.rightStart == hunk.rightStart
    ensures e <= edit_i <= |edits|
    ensures l_i == LeftPos(edits, edit_i) <= |left| && r_i == RightPos(edits, edit_i) <= |right|
    ensures hasEdits <==> context > 0
    ensures e <= edit_i && ChangesIn(h.lines, h.leftStart - 1, h.rightStart - 1) == ChangesBy(edits, e, edit_i)
    ensures hasEdits ==>
              e < edit_i && IsFinished(h, edits, left, right, context, l_i, r_i, edit_i)
  {
    hide *;
    WholeScript(edits, left, right);
    l_i, r_i, edit_i := FillHunk(hunk, edits, left, right, context, e, l, r);
    hasEdits := hunk.HasAnyEdits();
    h := hunk.Print();
    if hasEdits {
      FinishedWhen(h, edits, left, right, context, l_i, r_i, edit_i);
    }
  }

  lemma FinishedWhen(
    h: HunkData, edits: seq<EditType>, left: seq<string>, right: seq<string>, context: nat, l: nat, r: nat, e: nat)
    requires HasEdits(h.lines) && RemovesBeforeAdds(h.lines) && LongestRun(h.lines) < 2 * context
    requires h.leftLength == |OldLines(h.lines)| && h.rightLength == |NewLines(h.lines)|
    requires 0 <= h.leftStart - 1 <= l <= |left| && OldLines(h.lines) == left[h.leftStart - 1..l]
    requires 0 <= h.rightStart - 1 <= r <= |right| && NewLines(h.lines) == right[h.rightStart - 1..r]
    requires LeadingContext(h.lines) <= context && TrailingContext(h.lines) <= context
    requires LeadingContext(h.lines) == context || h.leftStart == 1
    requires if e == |edits| then l == |left|
             else TrailingContext(h.lines) == context && l >= context && r >= context && AllMatch(edits, e, e + context)
    ensures IsFinished(h, edits, left, right, context, l, r, e)
  {
    hide HasEdits, RemovesBeforeAdds, LongestRun, OldLines, NewLines, LeadingContext, TrailingContext, AllMatch;
    hide Occupies;
    SliceOccupies(left, h.leftStart - 1, l, OldLines(h.lines));
    SliceOccupies(right, h.rightStart - 1, r, NewLines(h.lines));
  }

  lemma SliceOccupies(side: seq<string>, from: int, until: int, lines: seq<string>)
    requires 0 <= from <= until <= |side| && lines == side[from..until]
    ensures Occupies(side, from, lines) && until == from + |lines|
  {
  }

  /** The equal stretch from (l, r), the edits after it and their context, as one hunk. Without
      edits, either the two sides agree to the end or no context was asked for. */
  method NextHunk(
    edits: seq<EditType>, left: seq<string>, right: seq<string>, context: nat, e: nat, l: nat, r: nat)
    returns (h: HunkData, hasEdits: bool, l_i: nat, r_i: nat, edit_i: nat)
    requires IsScript(edits, left, right, |left|, |right|)
    requires e < |edits| && l == LeftPos(edits, e) <= |left| && r == RightPos(edits, e) <= |right|
    requires (l == 0 && r == 0) || (l >= context && r >= context && AllMatch(edits, e, e + context))
    ensures edit_i <= |edits| && l_i == LeftPos(edits, edit_i) <= |left| && r_i == RightPos(edits, edit_i) <= |right|
    ensures hasEdits ==>
              && context > 0 && e < edit_i && !AllMatch(edits, 0, |edits|)
              && l <= h.leftStart - 1 <= |left| && r <= h.rightStart - 1 <= |right|
              && left[l..h.leftStart - 1] == right[r..h.rightStart - 1]
              && IsFinished(h, edits, left, right, context, l_i, r_i, edit_i)
    ensures hasEdits ==>
              ChangesIn(h.lines, h.leftStart - 1, h.rightStart - 1) == ChangesBy(edits, e, edit_i)
    ensures !hasEdits ==> context == 0 || (left[l..] == right[r..] && AllMatch(edits, e, |edits|))
  {
    hide *;
    l_i, r_i, edit_i := SkipMatches(edits, left, right, e, l, r);
    var hunk := OpenHunk(left, l_i, r_i, context);
    if edit_i == |edits| {
      hasEdits := hunk.HasAnyEdits();
      h := hunk.Print();
    } else {
      assert Min(l_i, context) <= l_i - l by { FarEdit(edits, e, edit_i, context); }
      SplitGap(left, right, l, r, l_i, r_i, Min(l_i, context));
      ghost var first := edit_i;
      h, hasEdits, l_i, r_i, edit_i := FinishHunk(hunk, edits, left, right, context, edit_i, l_i, r_i);
      ChangesAfterMatches(edits, e, first, edit_i);
    }
  }

  lemma ChangesAfterMatches(edits: seq<EditType>, from: nat, first: nat, until: nat)
    requires from <= first <= until <= |edits| && AllMatch(edits, from, first)
    ensures ChangesBy(edits, from, until) == ChangesBy(edits, first, until)
  {
    hide ChangesBy;
    MatchesChangeNothing(edits, from, first);
    ChangesBySplit(edits, from, first, until);
    AndIsAssociative(ChangesBy(edits, first, until), Changes({}, {}), Changes({}, {}));
  }

  lemma FarEdit(edits: seq<EditType>, e: nat, k: nat, context: nat)
    requires e <= k < |edits| && !edits[k].Match?
    ensures AllMatch(edits, e, e + context) ==> k - e >= context
  {
  }

  lemma WholeScript(edits: seq<EditType>, left: seq<string>, right: seq<string>)
    requires IsScript(edits, left, right, |left|, |right|)
    ensures LeftPos(edits, |edits|) == |left| && RightPos(edits, |edits|) == |right|
    ensures LeftPos(edits, 0) == RightPos(edits, 0) == 0
  {
  }

  /** Line by line, what is removed and added is what the script says, and so is how much. */
  ghost predicate FollowsScript(changes: Changes, edits: seq<EditType>) {
    && (forall i :: i in changes.removed <==> RemovesLine(edits, i))
    && (forall j :: j in changes.added <==> AddsLine(edits, j))
    && |changes.removed| + |changes.added| == NumEdits(edits) + NumReplaces(edits)
  }

  lemma AllChangesFollow(changes: Changes, edits: seq<EditType>)
    requires changes == ChangesBy(edits, 0, |edits|)
    ensures FollowsScript(changes, edits)
  {
    hide LeftPos, RightPos, ChangesBy;
    forall i: int
      ensures i in changes.removed <==> RemovesLine(edits, i)
      ensures i in changes.added <==> AddsLine(edits, i)
    {
      ChangesByMeans(edits, |edits|, i);
    }
    ChangesByCount(edits, |edits|);
    assert edits[..|edits|] == edits;
  }

  lemma OneMoreHunk(hunks: seq<HunkData>, h: HunkData, edits: seq<EditType>, k: nat, n: nat)
    requires k <= n <= |edits| && ChangesOf(hunks) == ChangesBy(edits, 0, k)
    requires ChangesIn(h.lines, h.leftStart - 1, h.rightStart - 1) == ChangesBy(edits, k, n)
    ensures ChangesOf(hunks + [h]) == ChangesBy(edits, 0, n)
  {
    hide ChangesIn, ChangesBy;
    assert (hunks + [h])[..|hunks|] == hunks;
    ChangesBySplit(edits, 0, k, n);
  }

  lemma OnlyMatchesFollow(edits: seq<EditType>, k: nat)
    requires k <= |edits| && AllMatch(edits, k, |edits|)
    ensures ChangesBy(edits, 0, |edits|) == ChangesBy(edits, 0, k)
  {
    hide ChangesBy;
    MatchesChangeNothing(edits, k, |edits|);
    ChangesBySplit(edits, 0, k, |edits|);
    AndIsAssociative(ChangesBy(edits, 0, k), Changes({}, {}), Changes({}, {}));
  }

  /** The hunks turn left into right exactly when some context is asked for or nothing changed, and
      then they remove and add the lines that the script of the tables says, and no others. */
  method CreateUnifiedDiff(left: seq<string>, right: seq<string>, context: nat) returns (hunks: seq<HunkData>)
    ensures Fit(left, right, hunks)
    ensures forall h :: h in hunks ==> WellFormed(h, |left|, context)
    ensures Apply(left, right, hunks) == right <==> context >= 1 || left == right
    ensures hunks == [] <==> context == 0 || left == right
    ensures context >= 1 ==> FollowsScript(ChangesOf(hunks), Script(left, right, |left|, |right|))
  {
    hide *;
    var edits := CalculateOptimalEdits(left, right);
    StartOfDiff(left, right);
    var l_i, r_i, edit_i := 0, 0, 0;
    hunks := [];
    while edit_i < |edits|
      invariant 0 <= edit_i <= |edits| && l_i == LeftPos(edits, edit_i) && r_i == RightPos(edits, edit_i)
      invariant Fit(left, right, hunks) && LeftEnd(hunks) == l_i <= |left| && RightEnd(hunks) == r_i <= |right|
      invariant Patched(left, right, hunks) == right[..r_i]
      invariant ChangesOf(hunks) == ChangesBy(edits, 0, edit_i)
      invariant forall h :: h in hunks ==> WellFormed(h, |left|, context)
      invariant if hunks == [] then edit_i == 0 else context > 0 && left != right
      invariant edit_i == 0 || edit_i == |edits|
                || (l_i >= context && r_i >= context && AllMatch(edits, edit_i, edit_i + context))
    {
      var h, hasEdits, l, r, e := NextHunk(edits, left, right, context, edit_i, l_i, r_i);
      if !hasEdits {
        if context > 0 {
          OnlyMatchesFollow(edits, edit_i);
        }
        break;
      }
      AppendFinished(left, right, hunks, h, edits, context, l, r, e);
      OneMoreHunk(hunks, h, edits, edit_i, e);
      hunks := hunks + [h];
      l_i, r_i, edit_i := l, r, e;
    }
    if context > 0 {
      ApplyToTheEnd(left, right, hunks);
      AllChangesFollow(ChangesOf(hunks), edits);
    }
  }

  /** What holds before the first hunk. */
  lemma StartOfDiff(left: seq<string>, right: seq<string>)
    ensures var edits := Script(left, right, |left|, |right|);
            && IsScript(edits, left, right, |left|, |right|)
            && LeftPos(edits, |edits|) == |left| && RightPos(edits, |edits|) == |right|
            && LeftPos(edits, 0) == RightPos(edits, 0) == 0
            && ChangesBy(edits, 0, 0) == ChangesOf([])
            && (left == right ==> AllMatch(edits, 0, |edits|))
    ensures Fit(left, right, []) && LeftEnd([]) == RightEnd([]) == 0
    ensures Patched(left, right, []) == right[..0] && Apply(left, right, []) == left
  {
    hide Script, IsScript, LeftPos, RightPos, ChangesBy;
    var edits := Script(left, right, |left|, |right|);
    ScriptReplays(left, right, |left|, |right|);
    WholeScript(edits, left, right);
    NoChangeYet(edits, 0);
    if left == right {
      EqualSidesAllMatch(left);
    }
  }

  /** Appending a finished hunk. */
  lemma AppendFinished(
    left: seq<string>, right: seq<string>, hunks: seq<HunkData>, h: HunkData,
    edits: seq<EditType>, context: nat, l: nat, r: nat, e: nat)
    requires Fit(left, right, hunks) && 0 <= LeftEnd(hunks) <= |left| && 0 <= RightEnd(hunks) <= |right|
    requires Patched(left, right, hunks) == right[..RightEnd(hunks)]
    requires LeftEnd(hunks) <= h.leftStart - 1 <= |left| && RightEnd(hunks) <= h.rightStart - 1 <= |right|
    requires left[LeftEnd(hunks)..h.leftStart - 1] == right[RightEnd(hunks)..h.rightStart - 1]
    requires IsFinished(h, edits, left, right, context, l, r, e)
    ensures Fit(left, right, hunks + [h]) && LeftEnd(hunks + [h]) == l && RightEnd(hunks + [h]) == r
    ensures r <= |right| && Patched(left, right, hunks + [h]) == right[..r]
    ensures WellFormed(h, |left|, context)
    ensures e == |edits| || (l >= context && r >= context && AllMatch(edits, e, e + context))
  {
    hide Fit, Patched, WellFormed, OldLines, NewLines, LeftEnd, RightEnd, AllMatch;
    AppendHunk(left, right, hunks, h);
    EndsOfAppend(hunks, h);
  }

  lemma ApplyToTheEnd(left: seq<string>, right: seq<string>, hunks: seq<HunkData>)
    requires 0 <= LeftEnd(hunks) <= |left| && 0 <= RightEnd(hunks) <= |right|
    requires Fit(left, right, hunks) && Patched(left, right, hunks) == right[..RightEnd(hunks)]
    requires left[LeftEnd(hunks)..] == right[RightEnd(hunks)..]
    ensures Apply(left, right, hunks) == right
  {
    hide Fit, Patched, LeftEnd, RightEnd;
  }
}
