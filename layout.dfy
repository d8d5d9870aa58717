/** The text layout of `draw_editor`: a greedy word wrap of the selected
    note's content against a pixel budget, then a markdown style for each
    wrapped line. Glyph measurement is the caller's `width` function. */
module Layout {
  import opened Base

  // Editor geometry, derived as `draw_editor` derives it.
  const PADDING: int := 40
  const CONTENT_WIDTH: int := WINDOW_WIDTH - SIDEBAR_WIDTH - PADDING * 2
  /** The width budget a line may not exceed once it has a space to break at. */
  const MAX_WIDTH: int := CONTENT_WIDTH - 20
  /** Vertical position of the first content line. */
  const TEXT_TOP: int := HEADER_HEIGHT + PADDING + 60
  /** Lines are laid out while their position is above this one. */
  const TEXT_BOTTOM: int := WINDOW_HEIGHT - 30
  const LINE_HEIGHT: int := 24

  /** The rendered width of a candidate line (`MeasureTextEx` at size 18). */
  type Width = Bytes -> int

  /** What the wrap consumed after a line: a newline, the space it broke
      at, or nothing because the text ended. */
  datatype Sep = AtNewline | AtSpace | AtEnd

  datatype Line = Line(text: Bytes, sep: Sep)

  function SepBytes(sep: Sep): Bytes {
    match sep
    case AtNewline => [NEWLINE]
    case AtSpace => [SPACE]
    case AtEnd => []
  }

  /** The inner loop of the wrap over `t`, the text from the line's start,
      at offset `j` with `ls` the offset of the last space seen (or -1). It
      stops at a newline or the end of the text, or, once the candidate line
      `t[..j+1]` is wider than the budget and a space lies at an offset above
      0, goes back to that space. */
  function BreakFrom(t: Bytes, j: nat, ls: int, width: Width): (r: nat)
    requires j <= |t| && ls < j
    ensures r <= |t|
    ensures r == 0 ==> j == 0 && (|t| == 0 || t[0] == NEWLINE)
    decreases |t| - j
  {
    if j == |t| || t[j] == NEWLINE then j
    else
      var ls' := if t[j] == SPACE then j else ls;
      if width(t[..j + 1]) > MAX_WIDTH && ls' > 0 then ls'
      else BreakFrom(t, j + 1, ls', width)
  }

  /** The length of the line that starts at `start`. */
  function LineLength(s: Bytes, start: nat, width: Width): (r: nat)
    requires start <= |s|
    ensures start + r <= |s|
    ensures r == 0 ==> start == |s| || s[start] == NEWLINE
  {
    BreakFrom(s[start..], 0, -1, width)
  }

  /** The separator at offset `e`, where a line ended. */
  function SepAt(s: Bytes, e: nat): Sep
    requires e <= |s|
  {
    if e < |s| && s[e] == NEWLINE then AtNewline
    else if e < |s| && s[e] == SPACE then AtSpace
    else AtEnd
  }

  /** Where the next line starts: past the line and the one separator it consumed. */
  function NextStart(s: Bytes, start: nat, width: Width): (r: nat)
    requires start < |s|
    ensures start < r <= |s|
  {
    var e := start + LineLength(s, start, width);
    e + |SepBytes(SepAt(s, e))|
  }

  /** The outer loop of the wrap: lines from `start`, the first at vertical
      position `y`, until the text ends or the position passes TEXT_BOTTOM. */
  function Wrap(s: Bytes, start: nat, y: int, width: Width): seq<Line>
    requires start <= |s|
    decreases |s| - start
  {
    if start == |s| || y >= TEXT_BOTTOM then []
    else
      var e := start + LineLength(s, start, width);
      [Line(s[start..e], SepAt(s, e))] + Wrap(s, NextStart(s, start, width), y + LINE_HEIGHT, width)
  }

  /** The lines laid out for a note's content. */
  function WrapContent(s: Bytes, width: Width): seq<Line> {
    Wrap(s, 0, TEXT_TOP, width)
  }

  /** The bytes the wrap scanned: each line followed by what it consumed. */
  function Joined(lines: seq<Line>): Bytes {
    if lines == [] then [] else lines[0].text + SepBytes(lines[0].sep) + Joined(lines[1..])
  }

  predicate NoNewline(t: Bytes) {
    forall k :: 0 <= k < |t| ==> t[k] != NEWLINE
  }

  /** A space at an offset above 0: a place the wrap may break at. */
  predicate HasInnerSpace(t: Bytes) {
    exists k :: 0 < k < |t| && t[k] == SPACE
  }

  /** The inner loop's state after `j` bytes of `t`: `ls` is the last space
      among them, and none of them is a newline. */
  predicate ScanState(t: Bytes, j: nat, ls: int) {
    && j <= |t|
    && -1 <= ls < j
    && (ls >= 0 ==> t[ls] == SPACE)
    && (forall k :: ls < k < j ==> t[k] != SPACE)
    && (forall k :: 0 <= k < j ==> t[k] != NEWLINE)
  }

  /** Every candidate line measured so far that had a space to break at fit. */
  predicate FitsUpTo(t: Bytes, j: nat, width: Width)
    requires j <= |t|
  {
    forall m :: 1 <= m <= j && HasInnerSpace(t[..m]) ==> width(t[..m]) <= MAX_WIDTH
  }

  lemma {:induction false} BreakFromFacts(t: Bytes, j: nat, ls: int, width: Width)
    requires ScanState(t, j, ls) && FitsUpTo(t, j, width)
    ensures var r := BreakFrom(t, j, ls, width);
      && NoNewline(t[..r])
      && (r == |t| || t[r] == NEWLINE || (t[r] == SPACE && r > 0))
      && (HasInnerSpace(t[..r]) ==> width(t[..r]) <= MAX_WIDTH)
    decreases |t| - j
  {
    if j == |t| || t[j] == NEWLINE {
    } else {
      var ls' := if t[j] == SPACE then j else ls;
      if width(t[..j + 1]) > MAX_WIDTH && ls' > 0 {
        BreakAtSpace(t, j, ls');
      } else {
        ScanStep(t, j, ls, width);
        BreakFromFacts(t, j + 1, ls', width);
      }
    }
  }

  /** Breaking at the last space seen: the line before it was measured and fit. */
  lemma BreakAtSpace(t: Bytes, j: nat, ls': int)
    requires j < |t| && 0 < ls' <= j && t[ls'] == SPACE
    requires forall k :: 0 <= k < j ==> t[k] != NEWLINE
    ensures NoNewline(t[..ls'])
  {
    assert t[..ls'] == t[..j][..ls'];
  }

  /** One step of the inner loop that does not break keeps its state and the fit. */
  lemma ScanStep(t: Bytes, j: nat, ls: int, width: Width)
    requires ScanState(t, j, ls) && FitsUpTo(t, j, width)
    requires j < |t| && t[j] != NEWLINE
    requires var ls' := if t[j] == SPACE then j else ls;
      !(width(t[..j + 1]) > MAX_WIDTH && ls' > 0)
    ensures var ls' := if t[j] == SPACE then j else ls;
      ScanState(t, j + 1, ls') && FitsUpTo(t, j + 1, width)
  {
    forall m | 1 <= m <= j + 1 && HasInnerSpace(t[..m])
      ensures width(t[..m]) <= MAX_WIDTH
    {
      if m == j + 1 {
        var k :| 0 < k < m && t[..m][k] == SPACE;
        assert t[k] == SPACE;
      }
    }
  }

  /** The first line of the wrap from `start` holds no newline, is not
      empty when a space ended it, and fits when it has a space to break at. */
  lemma FirstLineFacts(s: Bytes, start: nat, width: Width)
    requires start < |s|
    ensures var e := start + LineLength(s, start, width);
      && NoNewline(s[start..e])
      && (SepAt(s, e) == AtSpace ==> e > start)
      && (HasInnerSpace(s[start..e]) ==> width(s[start..e]) <= MAX_WIDTH)
  {
    var t := s[start..];
    var r := LineLength(s, start, width);
    BreakFromFacts(t, 0, -1, width);
    assert t[..r] == s[start..start + r];
  }

  /** The first line with what it consumed is the text up to the next line's start. */
  lemma FirstLineSpan(s: Bytes, start: nat, width: Width)
    requires start < |s|
    ensures var e := start + LineLength(s, start, width);
      s[start..e] + SepBytes(SepAt(s, e)) == s[start..NextStart(s, start, width)]
  {
  }

  /** The head line of a wrap that has not stopped, and the rest of it. */
  lemma WrapUnfold(s: Bytes, start: nat, y: int, width: Width)
    requires start < |s| && y < TEXT_BOTTOM
    ensures var e := start + LineLength(s, start, width);
      Wrap(s, start, y, width)
        == [Line(s[start..e], SepAt(s, e))] + Wrap(s, NextStart(s, start, width), y + LINE_HEIGHT, width)
  {
  }

  /** Every produced line is free of newlines; a line ended by a space
      consumed that space and is not empty, so that breaks happen only at an
      offset above 0; and a line that holds a space to break at fits the budget. */
  lemma {:induction false} WrapLineFacts(s: Bytes, start: nat, y: int, width: Width)
    requires start <= |s|
    ensures var lines := Wrap(s, start, y, width);
      forall i :: 0 <= i < |lines| ==>
        && NoNewline(lines[i].text)
        && (lines[i].sep == AtSpace ==> |lines[i].text| > 0)
        && (HasInnerSpace(lines[i].text) ==> width(lines[i].text) <= MAX_WIDTH)
    decreases |s| - start
  {
    if start < |s| && y < TEXT_BOTTOM {
      var lines := Wrap(s, start, y, width);
      var e := start + LineLength(s, start, width);
      var next := NextStart(s, start, width);
      var rest := Wrap(s, next, y + LINE_HEIGHT, width);
      WrapUnfold(s, start, y, width);
      FirstLineFacts(s, start, width);
      WrapLineFacts(s, next, y + LINE_HEIGHT, width);
      assert lines[0] == Line(s[start..e], SepAt(s, e));
      assert forall i :: 1 <= i < |lines| ==> lines[i] == rest[i - 1];
    }
  }

  /** Joining a line in front of more lines. */
  lemma JoinedCons(line: Line, rest: seq<Line>)
    ensures Joined([line] + rest) == line.text + SepBytes(line.sep) + Joined(rest)
  {
    assert ([line] + rest)[1..] == rest;
  }

  /** Where the wrap from `start` stops scanning. */
  function WrapEnd(s: Bytes, start: nat, y: int, width: Width): (r: nat)
    requires start <= |s|
    ensures start <= r <= |s|
    decreases |s| - start
  {
    if start == |s| || y >= TEXT_BOTTOM then start
    else WrapEnd(s, NextStart(s, start, width), y + LINE_HEIGHT, width)
  }

  /** The head line and what it consumed, then the rest, joined. */
  lemma JoinedUnfold(s: Bytes, start: nat, y: int, width: Width)
    requires start < |s| && y < TEXT_BOTTOM
    ensures Joined(Wrap(s, start, y, width))
      == s[start..NextStart(s, start, width)] + Joined(Wrap(s, NextStart(s, start, width), y + LINE_HEIGHT, width))
  {
    var e := start + LineLength(s, start, width);
    WrapUnfold(s, start, y, width);
    JoinedCons(Line(s[start..e], SepAt(s, e)), Wrap(s, NextStart(s, start, width), y + LINE_HEIGHT, width));
    FirstLineSpan(s, start, width);
  }

  lemma SliceJoin(s: Bytes, a: nat, b: nat, c: nat)
    requires a <= b <= c <= |s|
    ensures s[a..b] + s[b..c] == s[a..c]
  {
  }

  /** The lines joined with their separators are exactly the text the wrap
      scanned. */
  lemma {:induction false} WrapJoined(s: Bytes, start: nat, y: int, width: Width)
    requires start <= |s|
    ensures Joined(Wrap(s, start, y, width)) == s[start..WrapEnd(s, start, y, width)]
    decreases |s| - start
  {
    if start < |s| && y < TEXT_BOTTOM {
      var next := NextStart(s, start, width);
      var end := WrapEnd(s, start, y, width);
      JoinedUnfold(s, start, y, width);
      WrapJoined(s, next, y + LINE_HEIGHT, width);
      SliceJoin(s, start, next, end);
    }
  }

  /** The wrap scans to the end of the text unless its lines reach the
      bottom of the editor. */
  lemma {:induction false} WrapReachesEnd(s: Bytes, start: nat, y: int, width: Width)
    requires start <= |s|
    ensures WrapEnd(s, start, y, width) == |s| || y + LINE_HEIGHT * |Wrap(s, start, y, width)| >= TEXT_BOTTOM
    decreases |s| - start
  {
    if start < |s| && y < TEXT_BOTTOM {
      WrapUnfold(s, start, y, width);
      WrapReachesEnd(s, NextStart(s, start, width), y + LINE_HEIGHT, width);
    }
  }

  /** How many lines fit from position `y` to the bottom of the editor. */
  function VisibleLines(y: int): nat {
    if y >= TEXT_BOTTOM then 0 else (TEXT_BOTTOM - 1 - y) / LINE_HEIGHT + 1
  }

  lemma {:induction false} WrapLineCount(s: Bytes, start: nat, y: int, width: Width)
    requires start <= |s|
    ensures |Wrap(s, start, y, width)| <= VisibleLines(y)
    decreases |s| - start
  {
    if start < |s| && y < TEXT_BOTTOM {
      WrapLineCount(s, NextStart(s, start, width), y + LINE_HEIGHT, width);
    }
  }

  /** At most 26 lines of a note are laid out. */
  lemma ContentLineCount(s: Bytes, width: Width)
    ensures |WrapContent(s, width)| <= 26
  {
    WrapLineCount(s, 0, TEXT_TOP, width);
  }

  // Markdown styling of one wrapped line.

  datatype Style = Heading1 | Heading2 | Bullet | Paragraph

  datatype StyledLine = StyledLine(style: Style, text: Bytes)

  const H1_MARKER: Bytes := [HASH, SPACE]
  const H2_MARKER: Bytes := [HASH, HASH, SPACE]
  const BULLET_MARKER: Bytes := [DASH, SPACE]

  /** The prefix a style strips from the line. */
  function Marker(style: Style): Bytes {
    match style
    case Heading1 => H1_MARKER
    case Heading2 => H2_MARKER
    case Bullet => BULLET_MARKER
    case Paragraph => []
  }

  predicate StartsWith(s: Bytes, p: Bytes) {
    |p| <= |s| && s[..|p|] == p
  }

  /** `# ` is a level-1 heading, `## ` a level-2 heading, `- ` a bullet,
      anything else plain text; the marker is stripped from the text drawn. */
  function Classify(line: Bytes): StyledLine {
    if |line| >= 2 && line[0] == HASH && line[1] == SPACE then StyledLine(Heading1, line[2..])
    else if |line| >= 3 && line[0] == HASH && line[1] == HASH && line[2] == SPACE then StyledLine(Heading2, line[3..])
    else if |line| >= 2 && line[0] == DASH && line[1] == SPACE then StyledLine(Bullet, line[2..])
    else StyledLine(Paragraph, line)
  }

  /** The style of a line is decided by the marker it starts with, and the
      drawn text is the line with that marker, and nothing else, stripped. */
  lemma ClassifyFacts(line: Bytes)
    ensures var r := Classify(line);
      && Marker(r.style) + r.text == line
      && (r.style == Heading1 <==> StartsWith(line, H1_MARKER))
      && (r.style == Heading2 <==> StartsWith(line, H2_MARKER))
      && (r.style == Bullet <==> StartsWith(line, BULLET_MARKER))
  {
    ClassifyText(line);
    ClassifyH1(line);
    ClassifyH2(line);
    ClassifyBullet(line);
  }

  lemma ClassifyText(line: Bytes)
    ensures Marker(Classify(line).style) + Classify(line).text == line
  {
  }

  lemma ClassifyH1(line: Bytes)
    ensures Classify(line).style == Heading1 <==> StartsWith(line, H1_MARKER)
  {
  }

  lemma ClassifyH2(line: Bytes)
    ensures Classify(line).style == Heading2 <==> StartsWith(line, H2_MARKER)
  {
  }

  lemma ClassifyBullet(line: Bytes)
    ensures Classify(line).style == Bullet <==> StartsWith(line, BULLET_MARKER)
  {
  }

  /** A marked line is classified by its marker whatever follows it. */
  lemma ClassifyMarked(style: Style, text: Bytes)
    requires style != Paragraph
    ensures Classify(Marker(style) + text) == StyledLine(style, text)
  {
    var line := Marker(style) + text;
    assert line[..|Marker(style)|] == Marker(style);
    assert line[|Marker(style)|..] == text;
  }

  /** Each wrapped line with its style, in order. */
  function Styled(lines: seq<Line>): (r: seq<StyledLine>)
    ensures |r| == |lines|
  {
    if lines == [] then [] else [Classify(lines[0].text)] + Styled(lines[1..])
  }
  /** Each styled line is the classification of its wrapped line. */
  lemma {:induction false} StyledLines(lines: seq<Line>)
    ensures forall i :: 0 <= i < |lines| ==> Styled(lines)[i] == Classify(lines[i].text)
  {
    if lines != [] {
      StyledLines(lines[1..]);
      assert forall i :: 1 <= i < |lines| ==> Styled(lines)[i] == Styled(lines[1..])[i - 1];
    }
  }


  /** The inner loop of `draw_editor`'s wrap: measures candidate lines from
      `charIndex` on and returns the length of the line to draw. */
  method ScanLine(content: Bytes, charIndex: nat, width: Width) returns (lineLen: nat)
    requires charIndex <= |content|
    ensures lineLen == LineLength(content, charIndex, width)
  {
    ghost var t := content[charIndex..];
    lineLen := 0;
    var lastSpace := -1;
    while charIndex + lineLen < |content| && content[charIndex + lineLen] != NEWLINE
      invariant charIndex + lineLen <= |content| && lastSpace < lineLen
      invariant BreakFrom(t, lineLen, lastSpace, width) == LineLength(content, charIndex, width)
      decreases |content| - charIndex - lineLen
    {
      assert t[lineLen] == content[charIndex + lineLen];
      assert t[..lineLen + 1] == content[charIndex..charIndex + lineLen + 1];
      if content[charIndex + lineLen] == SPACE {
        lastSpace := lineLen;
      }
      if width(content[charIndex..charIndex + lineLen + 1]) > MAX_WIDTH && lastSpace > 0 {
        lineLen := lastSpace;
        return;
      }
      lineLen := lineLen + 1;
    }
  }

  /** Styling a line in front of more lines. */
  lemma StyledCons(line: Line, rest: seq<Line>)
    ensures Styled([line] + rest) == [Classify(line.text)] + Styled(rest)
  {
    assert ([line] + rest)[1..] == rest;
  }

  /** One step of the layout loop: the styled head line joins what is
      already laid out, and the wrap goes on past the line and the newline
      or space that ended it. */
  lemma StyledStep(s: Bytes, start: nat, y: int, width: Width, done: seq<StyledLine>, lineLen: nat, next: nat)
    requires start < |s| && y < TEXT_BOTTOM
    requires lineLen == LineLength(s, start, width)
    requires next == start + lineLen + |SepBytes(SepAt(s, start + lineLen))|
    ensures start < next <= |s|
    ensures done + Styled(Wrap(s, start, y, width))
      == (done + [Classify(s[start..start + lineLen])]) + Styled(Wrap(s, next, y + LINE_HEIGHT, width))
  {
    var e := start + lineLen;
    assert next == NextStart(s, start, width);
    var rest := Wrap(s, next, y + LINE_HEIGHT, width);
    WrapUnfold(s, start, y, width);
    StyledCons(Line(s[start..e], SepAt(s, e)), rest);
    AppendOne(done, Classify(s[start..e]), Styled(rest));
  }

  lemma AppendOne(a: seq<StyledLine>, x: StyledLine, b: seq<StyledLine>)
    ensures a + ([x] + b) == (a + [x]) + b
  {
  }

  /** Past the end of a line at `e`, and past the newline or the space that
      ended it. */
  method PastSeparator(s: Bytes, e: nat) returns (next: nat)
    requires e <= |s|
    ensures next == e + |SepBytes(SepAt(s, e))|
  {
    next := e;
    if next < |s| && s[next] == NEWLINE {
      next := next + 1;
    } else if next < |s| && s[next] == SPACE {
      next := next + 1;
    }
  }

  /** Where the layout loop stops, nothing more is laid out. */
  lemma WrapStops(s: Bytes, start: nat, y: int, width: Width, done: seq<StyledLine>)
    requires start <= |s| && (start == |s| || y >= TEXT_BOTTOM)
    ensures done + Styled(Wrap(s, start, y, width)) == done
  {
    assert Wrap(s, start, y, width) == [];
    assert done + [] == done;
  }

  /** One pass of the layout loop: the line that starts at `start`, styled,
      and where the next line starts. */
  method LayoutLine(content: Bytes, start: nat, y: int, width: Width, ghost done: seq<StyledLine>)
    returns (line: StyledLine, next: nat)
    requires start < |content| && y < TEXT_BOTTOM
    ensures start < next <= |content|
    ensures line == Classify(content[start..start + LineLength(content, start, width)])
    ensures done + Styled(Wrap(content, start, y, width))
      == (done + [line]) + Styled(Wrap(content, next, y + LINE_HEIGHT, width))
  {
    var lineLen := ScanLine(content, start, width);
    next := PastSeparator(content, start + lineLen);
    StyledStep(content, start, y, width, done, lineLen, next);
    line := Classify(content[start..start + lineLen]);
  }

  /** The layout loop of `draw_editor`: the wrapped, styled lines of a
      note's content, in the order they are drawn. */
  method LayoutLines(content: Bytes, width: Width) returns (lines: seq<StyledLine>)
    ensures lines == Styled(WrapContent(content, width))
  {
    ghost var all := Styled(WrapContent(content, width));
    var charIndex := 0;
    var textY := TEXT_TOP;
    lines := [];
    assert all == lines + Styled(Wrap(content, charIndex, textY, width));
    while charIndex < |content| && textY < TEXT_BOTTOM
      invariant 0 <= charIndex <= |content|
      invariant all == lines + Styled(Wrap(content, charIndex, textY, width))
      decreases |content| - charIndex
    {
      var line, next := LayoutLine(content, charIndex, textY, width, lines);
      lines := lines + [line];
      charIndex := next;
      textY := textY + LINE_HEIGHT;
    }
    WrapStops(content, charIndex, textY, width, lines);
  }
}
