/** The diff-line resolver of the reviewer: does a line number of the new
    version of a file appear (as a context or an added line) in the file's
    unified diff? A single pass over the diff's lines with two counters. */
module DiffLines {
  import opened Wrappers
  import opened Text

  /** The scanner's state: the new-file and old-file line numbers of the
      next line. */
  datatype Counters = Counters(newLine: int, oldLine: int)

  /** The two range starts of a hunk header, new first, as the Go parser
      returns them. */
  datatype Starts = Starts(newStart: int, oldStart: int)

  /** The three line classes the scanner distinguishes (the fourth,
      `Removed`, only moves the old counter). */
  datatype LineKind = HunkHeader | Added | Removed | Context

  /** One hunk header `@@ -oldStart,oldCount +newStart,newCount @@section`;
      a count may be left out (`@@ -3 +7 @@`), as unified diffs do for a
      count of one. */
  datatype Hunk = Hunk(oldStart: int, oldCount: Option<nat>, newStart: int, newCount: Option<nat>)

  // ---------------------------------------------------------------------
  // Hunk header parsing
  // ---------------------------------------------------------------------

  /** The start of a range `start,count`: the integer leading the text
      before the first comma, 0 when there is none. Go takes the first
      element of `strings.SplitN(input, ",", 2)`, which is the first
      segment of the full split; that slice is never empty. */
  function ParseRangeStart(input: string): int
  {
    ScanInt(Split(input, ',')[0])
  }

  /** The new and old range starts of a hunk header; (0, 0) when the line
      has fewer than three space-separated fields. */
  function ParseHunkHeader(line: string): (r: Starts)
    ensures |Split(line, ' ')| < 3 ==> r == Starts(0, 0)
  {
    var parts := Split(line, ' ');
    if |parts| < 3 then Starts(0, 0)
    else
      var oldRange := TrimPrefix(parts[1], "-");
      var newRange := TrimPrefix(parts[2], "+");
      Starts(ParseRangeStart(newRange), ParseRangeStart(oldRange))
  }

  /** A range without its sign: `start,count`, or `start` alone. */
  function RangeBody(start: int, count: Option<nat>): string {
    match count
    case Some(n) => ShowInt(start) + "," + ShowNat(n)
    case None => ShowInt(start)
  }

  /** One side's range `-start,count` or `+start,count`. */
  function RangeText(sign: char, start: int, count: Option<nat>): string {
    [sign] + RangeBody(start, count)
  }

  /** The text of a hunk header, with an optional trailing section heading. */
  function RenderHunk(h: Hunk, section: string): string {
    "@@" + [' '] + (RangeText('-', h.oldStart, h.oldCount)
      + [' '] + (RangeText('+', h.newStart, h.newCount) + [' '] + ("@@" + section)))
  }

  /** A range `start,count` or `start` reads back its start. */
  lemma RangeStartRoundTrip(start: int, count: Option<nat>)
    ensures ParseRangeStart(RangeBody(start, count)) == start
  {
    var s := ShowInt(start);
    assert ',' !in s by {
      forall i | 0 <= i < |s| ensures s[i] != ',' {
        assert IsDigit(s[i]) || s[i] == '-';
      }
    }
    SplitNoSep(s, ',');
    ScanShowInt(start, "");
    assert s + "" == s;
    if count.Some? {
      assert s + "," + ShowNat(count.value) == s + [','] + ShowNat(count.value);
      SplitConcat(s, ShowNat(count.value), ',');
    }
  }

  /** A signed range contains neither spaces nor newlines. */
  lemma RangeTextChars(sign: char, start: int, count: Option<nat>)
    requires sign == '-' || sign == '+'
    ensures ' ' !in RangeText(sign, start, count)
    ensures '\n' !in RangeText(sign, start, count)
  {
    var a := ShowInt(start);
    var s := RangeText(sign, start, count);
    forall i | 0 <= i < |s| ensures s[i] != ' ' && s[i] != '\n' {
      if 1 <= i < 1 + |a| {
        assert s[i] == a[i - 1];
      } else if i > 1 + |a| {
        var b := ShowNat(count.value);
        assert s[i] == b[i - 2 - |a|];
      }
    }
  }

  /** Trimming the sign of a range leaves `start,count`. */
  lemma TrimRangeSign(sign: char, start: int, count: Option<nat>)
    ensures TrimPrefix(RangeText(sign, start, count), [sign]) == RangeBody(start, count)
  {
    var s := RangeText(sign, start, count);
    assert s[..1] == [sign];
  }

  /** The second and third space-separated fields of a line built from
      space-free pieces. */
  lemma {:induction false} ThreeFields(first: string, second: string, third: string, tail: string)
    requires ' ' !in first && ' ' !in second && ' ' !in third
    ensures var parts := Split(first + [' '] + (second + [' '] + (third + [' '] + tail)), ' ');
      |parts| >= 3 && parts[1] == second && parts[2] == third
  {
    SplitConcat(third, tail, ' ');
    SplitNoSep(third, ' ');
    SplitConcat(second, third + [' '] + tail, ' ');
    SplitNoSep(second, ' ');
    SplitConcat(first, second + [' '] + (third + [' '] + tail), ' ');
    SplitNoSep(first, ' ');
  }

  /** The space-separated fields of a rendered header. */
  lemma RenderHunkFields(h: Hunk, section: string)
    ensures var parts := Split(RenderHunk(h, section), ' ');
      |parts| >= 3 && parts[1] == RangeText('-', h.oldStart, h.oldCount)
      && parts[2] == RangeText('+', h.newStart, h.newCount)
  {
    RangeTextChars('-', h.oldStart, h.oldCount);
    RangeTextChars('+', h.newStart, h.newCount);
    ThreeFields("@@", RangeText('-', h.oldStart, h.oldCount), RangeText('+', h.newStart, h.newCount), "@@" + section);
  }

  /** Parsing a rendered header gives back its two starts, new first,
      whatever section heading follows. */
  lemma ParseRenderHunk(h: Hunk, section: string)
    ensures ParseHunkHeader(RenderHunk(h, section)) == Starts(h.newStart, h.oldStart)
  {
    RenderHunkFields(h, section);
    TrimRangeSign('-', h.oldStart, h.oldCount);
    TrimRangeSign('+', h.newStart, h.newCount);
    assert "-" == ['-'] && "+" == ['+'];
    RangeStartRoundTrip(h.oldStart, h.oldCount);
    RangeStartRoundTrip(h.newStart, h.newCount);
  }

  /** A rendered header is one line, classified as a hunk header. */
  lemma RenderHunkIsHeaderLine(h: Hunk, section: string)
    requires '\n' !in section
    ensures '\n' !in RenderHunk(h, section)
    ensures HasPrefix(RenderHunk(h, section), "@@")
  {
    RangeTextChars('-', h.oldStart, h.oldCount);
    RangeTextChars('+', h.newStart, h.newCount);
    assert RenderHunk(h, section)[..2] == "@@";
  }

  /** The parser test: new start first, then old start. */
  lemma ParseHunkHeaderExample()
    ensures ParseHunkHeader("@@ -10,7 +20,9 @@") == Starts(20, 10)
  {
    assert ShowInt(10) == "10" && ShowNat(7) == "7";
    assert ShowInt(20) == "20" && ShowNat(9) == "9";
    assert RenderHunk(Hunk(10, Some(7), 20, Some(9)), "") == "@@ -10,7 +20,9 @@";
    ParseRenderHunk(Hunk(10, Some(7), 20, Some(9)), "");
  }

  /** A header that leaves both counts out parses the same way. */
  lemma OmittedCountExample()
    ensures ParseHunkHeader("@@ -3 +7 @@") == Starts(7, 3)
  {
    assert ShowInt(3) == "3" && ShowInt(7) == "7";
    assert RenderHunk(Hunk(3, None, 7, None), "") == "@@ -3 +7 @@";
    ParseRenderHunk(Hunk(3, None, 7, None), "");
  }

  /** A header with fewer than three fields parses as (0, 0). */
  lemma ShortHeaderExample()
    ensures ParseHunkHeader("@@") == Starts(0, 0)
    ensures ParseHunkHeader("@@ -1,2") == Starts(0, 0)
  {
    SplitNoSep("@@", ' ');
    SplitNoSep("-1,2", ' ');
    SplitConcat("@@", "-1,2", ' ');
    assert "@@" + [' '] + "-1,2" == "@@ -1,2";
  }

  /** A range whose text before the first comma holds no number reads as
      0, with or without a count after the comma. */
  lemma NonNumericRangeStart(start: string, count: string)
    requires ',' !in start && NoLeadingNumber(start)
    ensures ParseRangeStart(start) == 0
    ensures ParseRangeStart(start + "," + count) == 0
  {
    SplitNoSep(start, ',');
    SplitConcat(start, count, ',');
    assert start + "," + count == start + [','] + count;
    ScanIntNoNumber(start);
  }

  /** A header whose new range, once its `+` is trimmed, has no number
      before its first comma has new start 0, whatever the old range and
      the rest of the line; the scanner then skips it. This covers `+x`,
      `+x,3` and a range missing its `+`. */
  lemma MalformedNewStart(oldRange: string, newRange: string, tail: string)
    requires ' ' !in oldRange && ' ' !in newRange
    requires NoLeadingNumber(Split(TrimPrefix(newRange, "+"), ',')[0])
    ensures ParseHunkHeader("@@" + [' '] + (oldRange + [' '] + (newRange + [' '] + tail))).newStart == 0
  {
    ThreeFields("@@", oldRange, newRange, tail);
    ScanIntNoNumber(Split(TrimPrefix(newRange, "+"), ',')[0]);
  }

  // ---------------------------------------------------------------------
  // The scanner
  // ---------------------------------------------------------------------

  /** The class of one diff line. Note that `+++` and `---` file header
      lines fall through to `Context`. */
  function Classify(line: string): LineKind {
    if HasPrefix(line, "@@") then HunkHeader
    else if HasPrefix(line, "+") && !HasPrefix(line, "+++") then Added
    else if HasPrefix(line, "-") && !HasPrefix(line, "---") then Removed
    else Context
  }

  /** The outcome of one line: the target is found, or the scan goes on. */
  datatype Step = Hit | Next(counters: Counters)

  /** The counters after a hunk header: both reset to the parsed starts,
      unless the new start parsed as 0, in which case both are kept. */
  function Reset(line: string, c: Counters): Counters {
    var s := ParseHunkHeader(line);
    if s.newStart != 0 then Counters(s.newStart, s.oldStart) else c
  }

  /** What one line does to the scan for `target`. */
  function StepLine(line: string, target: int, c: Counters): (r: Step)
    ensures r.Hit? <==> (Classify(line) == Added || Classify(line) == Context) && c.newLine == target
    ensures Classify(line) == HunkHeader ==> r == Next(Reset(line, c))
    ensures Classify(line) == Added && r.Next? ==> r.counters == Counters(c.newLine + 1, c.oldLine)
    ensures Classify(line) == Removed ==> r == Next(Counters(c.newLine, c.oldLine + 1))
    ensures Classify(line) == Context && r.Next? ==> r.counters == Counters(c.newLine + 1, c.oldLine + 1)
  {
    match Classify(line)
    case HunkHeader => Next(Reset(line, c))
    case Added =>
      if c.newLine == target then Hit else Next(c.(newLine := c.newLine + 1))
    case Removed => Next(c.(oldLine := c.oldLine + 1))
    case Context =>
      if c.newLine == target then Hit else Next(Counters(c.newLine + 1, c.oldLine + 1))
  }

  /** The scan over the remaining lines from counters `c`. */
  function Scan(lines: seq<string>, target: int, c: Counters): bool
    decreases |lines|
  {
    if |lines| == 0 then false
    else
      match StepLine(lines[0], target, c)
      case Hit => true
      case Next(c') => Scan(lines[1..], target, c')
  }

  /** `diffHasNewLine`: the scan over the diff's newline-separated lines,
      both counters starting at 0. */
  function Resolves(diff: string, target: int): bool {
    Scan(Split(diff, '\n'), target, Counters(0, 0))
  }

  // ---------------------------------------------------------------------
  // A declarative reading: the new-file numbers the diff shows
  // ---------------------------------------------------------------------

  /** The new-file line numbers of the context and added lines, in order,
      when the next line is numbered `n`. Only the new-side numbering is
      tracked: the old counter plays no part. */
  function Anchors(lines: seq<string>, n: int): seq<int>
    decreases |lines|
  {
    if |lines| == 0 then []
    else
      var line := lines[0];
      match Classify(line)
      case HunkHeader =>
        var s := ParseHunkHeader(line);
        Anchors(lines[1..], if s.newStart != 0 then s.newStart else n)
      case Removed => Anchors(lines[1..], n)
      case _ => [n] + Anchors(lines[1..], n + 1)
  }

  /** The scan succeeds exactly for the numbers the diff shows on its new
      side; in particular the old counter never changes the answer. */
  lemma {:induction false} ScanIffAnchor(lines: seq<string>, target: int, c: Counters)
    ensures Scan(lines, target, c) <==> target in Anchors(lines, c.newLine)
    decreases |lines|
  {
    if |lines| > 0 {
      var line := lines[0];
      match Classify(line)
      case HunkHeader =>
        ScanIffAnchor(lines[1..], target, Reset(line, c));
      case Removed =>
        ScanIffAnchor(lines[1..], target, Counters(c.newLine, c.oldLine + 1));
      case Added =>
        ScanIffAnchor(lines[1..], target, Counters(c.newLine + 1, c.oldLine));
      case Context =>
        ScanIffAnchor(lines[1..], target, Counters(c.newLine + 1, c.oldLine + 1));
    }
  }

  /** The old-file counter is maintained but never affects the result. */
  lemma OldLineIrrelevant(lines: seq<string>, target: int, n: int, old1: int, old2: int)
    ensures Scan(lines, target, Counters(n, old1)) == Scan(lines, target, Counters(n, old2))
  {
    ScanIffAnchor(lines, target, Counters(n, old1));
    ScanIffAnchor(lines, target, Counters(n, old2));
  }

  /** A header whose new start parses as 0 is skipped: the counters stay as
      they were, stale or not. */
  lemma ZeroHeaderKeepsCounters(line: string, rest: seq<string>, target: int, c: Counters)
    requires HasPrefix(line, "@@") && ParseHunkHeader(line).newStart == 0
    ensures Scan([line] + rest, target, c) == Scan(rest, target, c)
  {
    assert ([line] + rest)[1..] == rest;
  }

  /** How many lines of a hunk body exist on the new side. */
  function NewSideCount(body: seq<string>): nat
    decreases |body|
  {
    if |body| == 0 then 0
    else (if Classify(body[0]) == Removed then 0 else 1) + NewSideCount(body[1..])
  }

  /** Inside one hunk the new-side numbers are consecutive from the
      counter's value. */
  lemma {:induction false} HunkBodyAnchors(body: seq<string>, n: int, target: int)
    requires forall i | 0 <= i < |body| :: Classify(body[i]) != HunkHeader
    ensures target in Anchors(body, n) <==> n <= target < n + NewSideCount(body)
    decreases |body|
  {
    if |body| > 0 {
      assert Classify(body[0]) != HunkHeader;
      if Classify(body[0]) == Removed {
        HunkBodyAnchors(body[1..], n, target);
      } else {
        HunkBodyAnchors(body[1..], n + 1, target);
      }
    }
  }

  /** A header with a non-zero new start restarts the new-side numbering. */
  lemma AnchorsAfterHeader(header: string, body: seq<string>, n: int)
    requires HasPrefix(header, "@@") && ParseHunkHeader(header).newStart != 0
    ensures Anchors([header] + body, n) == Anchors(body, ParseHunkHeader(header).newStart)
  {
    assert ([header] + body)[1..] == body;
  }

  /** For a diff made of one hunk with a non-zero new start, exactly the
      lines `newStart .. newStart + k - 1` resolve, `k` being the body's
      new-side line count; everything past the hunk is refused. */
  lemma SingleHunkResolves(h: Hunk, section: string, body: seq<string>, target: int)
    requires h.newStart != 0
    requires '\n' !in section
    requires forall i | 0 <= i < |body| :: '\n' !in body[i] && Classify(body[i]) != HunkHeader
    ensures Resolves(Join([RenderHunk(h, section)] + body, '\n'), target)
        <==> h.newStart <= target < h.newStart + NewSideCount(body)
  {
    var header := RenderHunk(h, section);
    var lines := [header] + body;
    RenderHunkIsHeaderLine(h, section);
    assert forall i | 0 <= i < |lines| :: '\n' !in lines[i] by {
      forall i | 0 <= i < |lines| ensures '\n' !in lines[i] {
        if i > 0 {
          assert lines[i] == body[i - 1];
        }
      }
    }
    SplitJoin(lines, '\n');
    ParseRenderHunk(h, section);
    AnchorsAfterHeader(header, body, 0);
    ScanIffAnchor(lines, target, Counters(0, 0));
    HunkBodyAnchors(body, h.newStart, target);
  }

  // ---------------------------------------------------------------------
  // The Go loop
  // ---------------------------------------------------------------------

  /** The scan from position `i` is one step and then the scan from
      `i + 1`. */
  lemma ScanAt(lines: seq<string>, i: nat, target: int, c: Counters)
    requires i < |lines|
    ensures Scan(lines[i..], target, c) ==
      match StepLine(lines[i], target, c)
      case Hit => true
      case Next(c') => Scan(lines[i + 1..], target, c')
  {
    assert lines[i..][1..] == lines[i + 1..];
  }

  /** `diffHasNewLine` as written: one pass over the lines with the two
      counters, returning at the first context or added line numbered
      `target`. */
  method DiffHasNewLine(diff: string, target: int) returns (found: bool)
    ensures found == Resolves(diff, target)
    ensures found <==> target in Anchors(Split(diff, '\n'), 0)
  {
    var lines := Split(diff, '\n');
    ScanIffAnchor(lines, target, Counters(0, 0));
    var newLine, oldLine := 0, 0;
    var i := 0;
    while i < |lines|
      invariant 0 <= i <= |lines|
      invariant Scan(lines[i..], target, Counters(newLine, oldLine)) == Resolves(diff, target)
    {
      var line := lines[i];
      ghost var c := Counters(newLine, oldLine);
      ScanAt(lines, i, target, c);
      if HasPrefix(line, "@@") {
        assert Classify(line) == HunkHeader;
        var parsed := ParseHunkHeader(line);
        if parsed.newStart != 0 {
          newLine := parsed.newStart;
          oldLine := parsed.oldStart;
        }
        assert StepLine(line, target, c) == Next(Counters(newLine, oldLine));
        i := i + 1;
        continue;
      }
      if HasPrefix(line, "+") && !HasPrefix(line, "+++") {
        assert Classify(line) == Added;
        if newLine == target {
          return true;
        }
        newLine := newLine + 1;
        assert StepLine(line, target, c) == Next(Counters(newLine, oldLine));
        i := i + 1;
        continue;
      }
      if HasPrefix(line, "-") && !HasPrefix(line, "---") {
        assert Classify(line) == Removed;
        oldLine := oldLine + 1;
        assert StepLine(line, target, c) == Next(Counters(newLine, oldLine));
        i := i + 1;
        continue;
      }
      assert Classify(line) == Context;
      if newLine == target {
        return true;
      }
      newLine := newLine + 1;
      oldLine := oldLine + 1;
      assert StepLine(line, target, c) == Next(Counters(newLine, oldLine));
      i := i + 1;
    }
    return false;
  }

  // ---------------------------------------------------------------------
  // The documented example
  // ---------------------------------------------------------------------

  /** The one-hunk diff of the `reviewer` package test: a context line, an added
      line, a context line, and the empty segment after the final newline. */
  const ExampleDiff: string := "@@ -1,2 +1,3 @@\n line1\n+line2\n line3\n"

  const ExampleHunk: Hunk := Hunk(1, Some(2), 1, Some(3))
  const ExampleBody: seq<string> := [" line1", "+line2", " line3", ""]

  lemma ExampleHeaderText()
    ensures RenderHunk(ExampleHunk, "") == "@@ -1,2 +1,3 @@"
  {
    assert ShowInt(1) == "1";
    assert ShowNat(2) == "2";
    assert ShowNat(3) == "3";
    assert RangeText('-', 1, Some(2)) == "-1,2";
    assert RangeText('+', 1, Some(3)) == "+1,3";
  }

  lemma ExampleDiffShape()
    ensures Join([RenderHunk(ExampleHunk, "")] + ExampleBody, '\n') == ExampleDiff
  {
    var header := RenderHunk(ExampleHunk, "");
    ExampleHeaderText();
    ExampleBodyText();
    JoinCons(header, ExampleBody, '\n');
    assert ExampleDiff == "@@ -1,2 +1,3 @@" + ['\n'] + " line1\n+line2\n line3\n";
  }

  lemma ExampleBodyText()
    ensures Join(ExampleBody, '\n') == " line1\n+line2\n line3\n"
  {
    ExampleTailText();
    JoinCons(" line1", ["+line2", " line3", ""], '\n');
    assert ExampleBody == [" line1"] + ["+line2", " line3", ""];
  }

  lemma ExampleTailText()
    ensures Join(["+line2", " line3", ""], '\n') == "+line2\n line3\n"
  {
    JoinCons(" line3", [""], '\n');
    assert [" line3", ""] == [" line3"] + [""];
    JoinCons("+line2", [" line3", ""], '\n');
    assert ["+line2", " line3", ""] == ["+line2"] + [" line3", ""];
  }

  /** Joining a leading part to the rest. */
  lemma JoinCons(a: string, rest: seq<string>, sep: char)
    requires |rest| >= 1
    ensures Join([a] + rest, sep) == a + [sep] + Join(rest, sep)
  {
    assert ([a] + rest)[1..] == rest;
  }

  lemma ExampleBodyShape()
    ensures forall i | 0 <= i < |ExampleBody| :: '\n' !in ExampleBody[i] && Classify(ExampleBody[i]) != HunkHeader
    ensures NewSideCount(ExampleBody) == 4
  {
    var b := ExampleBody;
    assert b[0][..2] == " l" && b[0][..1] == " ";
    assert Classify(b[0]) == Context;
    assert b[1][..2] == "+l" && b[1][..1] == "+" && b[1][..3] == "+li";
    assert Classify(b[1]) == Added;
    assert b[2][..2] == " l" && b[2][..1] == " ";
    assert Classify(b[2]) == Context;
    assert Classify(b[3]) == Context;
    assert NewSideCount(b[3..]) == 1;
    assert NewSideCount(b[2..]) == 2;
    assert NewSideCount(b[1..]) == 3;
  }

  /** Lines 1 to 4 resolve and 5 does not. Line 4 resolving is the quirk of
      the trailing empty segment, which the scanner counts as context. */
  lemma ExampleDiffResolves(target: int)
    ensures Resolves(ExampleDiff, target) <==> 1 <= target <= 4
  {
    ExampleDiffShape();
    ExampleBodyShape();
    SingleHunkResolves(ExampleHunk, "", ExampleBody, target);
  }

  /** The `+++` and `---` file header lines are numbered like context. */
  lemma FileHeadersAreContext(line: string)
    requires HasPrefix(line, "+++") || HasPrefix(line, "---")
    ensures Classify(line) == Context
  {
    assert line[..3][..1] == line[..1] && line[..3][..2] == line[..2];
    assert line[..2][0] == line[0] && line[..2][1] == line[1];
  }
}
