/**
The two renderings of a table: a plain bullet list, and a fenced block with aligned columns when it
fits a mobile screen (src/stackowl/channels/_format.py:119-140, 617-662). Emphasis stripping is a
parameter that only deletes characters.
*/
module TableRender {
  import opened Common
  import opened Text
  import opened Lines
  import opened Tables

  const MAX_MOBILE_TABLE_WIDTH := 36

  type Row = seq<string>

  // ---- The plain list ----

  function PairText(header: Row, idx: nat, cell: string): string {
    if idx < |header| && header[idx] != "" then header[idx] + ": " + cell else cell
  }

  function PairTexts(header: Row, row: Row): (ps: seq<string>)
    ensures |ps| == |row| && forall i :: 0 <= i < |row| ==> ps[i] == PairText(header, i, row[i])
  {
    seq(|row|, i requires 0 <= i < |row| => PairText(header, i, row[i]))
  }

  function Bullet(text: string): string {
    "- " + text
  }

  function BulletLines(header: Row, body: seq<Row>): (ls: seq<string>)
    ensures |ls| == |body| && forall i :: 0 <= i < |body| ==> ls[i] == Bullet(Join("; ", PairTexts(header, body[i])))
  {
    seq(|body|, i requires 0 <= i < |body| => Bullet(Join("; ", PairTexts(header, body[i]))))
  }

  function NonEmpty(cells: Row): Row {
    if cells == [] then [] else NonEmpty(cells[..|cells| - 1]) + if Last(cells) != "" then [Last(cells)] else []
  }

  /** The lines of the plain list: one bullet for each body row, or one for the header alone. */
  function PlainLines(header: Row, body: seq<Row>): seq<string> {
    if body == [] then [Bullet(Join(", ", NonEmpty(header)))] else BulletLines(header, body)
  }

  function PlainList(header: Row, body: seq<Row>): string {
    JoinLines(PlainLines(header, body))
  }

  method RenderPlainList(header: Row, body: seq<Row>) returns (text: string)
    ensures text == PlainList(header, body)
  {
    if body == [] {
      return Bullet(Join(", ", NonEmpty(header)));
    }
    var outLines: seq<string> := [];
    for r := 0 to |body|
      invariant outLines == BulletLines(header, body[..r])
    {
      var pairs: seq<string> := [];
      for idx := 0 to |body[r]|
        invariant pairs == PairTexts(header, body[r][..idx])
      {
        var head := if idx < |header| then header[idx] else "";
        pairs := pairs + [if head != "" then head + ": " + body[r][idx] else body[r][idx]];
      }
      assert body[r][..|body[r]|] == body[r];
      outLines := outLines + ["- " + Join("; ", pairs)];
    }
    assert body[..|body|] == body;
    text := JoinLines(outLines);
  }

  // ---- Fence markers and whitespace ----

  predicate IsMarker(p: string) {
    p == "```" || p == "~~~"
  }

  /** `p` follows the leading whitespace. */
  predicate Leads(p: string, s: string) {
    StartsWith(LStrip(s), p)
  }

  lemma MarkerIsSolid(p: string)
    requires IsMarker(p)
    ensures |p| == 3 && !IsSpace(p[0]) && !IsSpace(p[1]) && !IsSpace(p[2])
  {
  }

  /** Trailing whitespace does not matter to what a line starts with. */
  lemma FenceLeads(line: string)
    ensures IsFence(line) <==> Leads("```", line) || Leads("~~~", line)
  {
    hide IsSpace, LStrip, RStrip;
    SolidPrefix("```", LStrip(line));
    SolidPrefix("~~~", LStrip(line));
  }

  lemma SolidPrefix(p: string, s: string)
    requires IsMarker(p)
    ensures StartsWith(RStrip(s), p) <==> StartsWith(s, p)
  {
    hide IsSpace, RStrip;
    MarkerIsSolid(p);
    var r := RStrip(s);
    forall k | |r| <= k < |s| ensures IsSpace(s[k]) {
      assert s[k] == s[|r|..][k - |r|];
    }
    if StartsWith(s, p) {
      assert s[2] == p[2];
      assert |r| >= 3;
    }
  }

  /** Leading whitespace is stripped from a text that has it or not. */
  lemma {:induction false} LStripConcat(a: string, b: string)
    ensures LStrip(a + b) == if AllSpace(a) then LStrip(b) else LStrip(a) + b
    decreases |a|
  {
    hide IsSpace;
    if a == "" {
      assert a + b == b;
    } else if IsSpace(a[0]) {
      assert (a + b)[1..] == a[1..] + b;
      LStripConcat(a[1..], b);
      assert AllSpace(a) <==> AllSpace(a[1..]);
    }
  }

  /** Behind `a` and a gap, a marker in `b` leads only if `a` is blank. */
  lemma LeadsGap(p: string, a: string, gap: string, b: string)
    requires IsMarker(p) && AllSpace(gap) && (gap == "" ==> b == "")
    ensures Leads(p, a + gap + b) <==> Leads(p, a) || (AllSpace(a) && Leads(p, b))
  {
    hide LStrip, IsSpace;
    MarkerIsSolid(p);
    assert a + gap + b == a + (gap + b);
    LStripConcat(a, gap + b);
    if AllSpace(a) {
      LStripConcat(gap, b);
      BlankLeadsNothing(p, a);
    } else {
      SolidBeforeGap(p, LStrip(a), gap, b);
    }
  }

  lemma SolidBeforeGap(p: string, h: string, gap: string, b: string)
    requires IsMarker(p) && AllSpace(gap) && (gap == "" ==> b == "")
    ensures StartsWith(h + (gap + b), p) <==> StartsWith(h, p)
  {
    hide IsSpace;
    MarkerIsSolid(p);
    var t := h + (gap + b);
    if StartsWith(t, p) {
      assert t[0] == p[0] && t[1] == p[1] && t[2] == p[2];
      assert gap != "" ==> t[|h|] == gap[0] && IsSpace(t[|h|]);
      assert |h| >= 3;
      assert p == t[..3] == h[..3];
    }
  }

  lemma SpaceIsSpace()
    ensures IsSpace(' ')
  {
  }

  lemma LeadsCut(p: string, s: string)
    requires IsMarker(p)
    ensures Leads(p, RStrip(s)) <==> Leads(p, s)
  {
    hide LStrip, RStrip, IsSpace;
    var r := RStrip(s);
    var gap := s[|r|..];
    assert s == r + gap + "";
    BlankLeadsNothing(p, "");
    LeadsGap(p, r, gap, "");
  }

  lemma BlankLeadsNothing(p: string, s: string)
    requires IsMarker(p) && AllSpace(s)
    ensures !Leads(p, s)
  {
    hide IsSpace, LStrip;
    var l := LStrip(s);
    assert l == "";
  }

  // ---- The aligned block ----

  function Max(a: nat, b: nat): nat {
    if a < b then b else a
  }

  /** The number of columns: the longest row's. */
  function Width(rows: seq<Row>): (w: nat)
    ensures forall i :: 0 <= i < |rows| ==> |rows[i]| <= w
  {
    if rows == [] then 0 else Max(Width(rows[..|rows| - 1]), |Last(rows)|)
  }

  /** A row's cell, empty beyond its end. */
  function CellAt(row: Row, c: nat): string {
    if c < |row| then row[c] else ""
  }

  function ColWidth(rows: seq<Row>, c: nat): (w: nat)
    ensures forall i :: 0 <= i < |rows| ==> |CellAt(rows[i], c)| <= w
  {
    if rows == [] then 0 else Max(ColWidth(rows[..|rows| - 1], c), |CellAt(Last(rows), c)|)
  }

  function Spaces(n: nat): (s: string)
    ensures |s| == n && forall i :: 0 <= i < n ==> s[i] == ' '
  {
    seq(n, _ => ' ')
  }

  /** `str.ljust`. */
  function LJust(s: string, w: nat): (r: string)
    ensures |r| == Max(|s|, w) && s <= r
  {
    s + Spaces(Max(|s|, w) - |s|)
  }

  /** The padded cells of the first `n` columns of a row. */
  function Padded(rows: seq<Row>, row: Row, n: nat): (ps: seq<string>)
    ensures |ps| == n && forall c :: 0 <= c < n ==> ps[c] == LJust(CellAt(row, c), ColWidth(rows, c))
  {
    seq(n, c requires 0 <= c < n => LJust(CellAt(row, c), ColWidth(rows, c)))
  }

  /** Where column `c` starts. */
  function Offset(rows: seq<Row>, c: nat): nat {
    if c == 0 then 0 else Offset(rows, c - 1) + ColWidth(rows, c - 1) + 2
  }

  function SumWidths(rows: seq<Row>, n: nat): nat {
    if n == 0 then 0 else SumWidths(rows, n - 1) + ColWidth(rows, n - 1)
  }

  function BlockWidth(header: Row, body: seq<Row>): nat {
    var rows := [header] + body;
    SumWidths(rows, Width(rows)) + 2 * if Width(rows) == 0 then 0 else Width(rows) - 1
  }

  /** A row before trailing whitespace is cut. */
  function RawLine(rows: seq<Row>, row: Row): string {
    Join("  ", Padded(rows, row, Width(rows)))
  }

  function Dashes(n: nat): (s: string)
    ensures |s| == n && forall i :: 0 <= i < n ==> s[i] == '-'
  {
    seq(n, _ => '-')
  }

  function RuleCells(rows: seq<Row>, n: nat): (ps: seq<string>)
    ensures |ps| == n && forall c :: 0 <= c < n ==> ps[c] == Dashes(ColWidth(rows, c))
  {
    seq(n, c requires 0 <= c < n => Dashes(ColWidth(rows, c)))
  }

  function RawRule(rows: seq<Row>): string {
    Join("  ", RuleCells(rows, Width(rows)))
  }

  function BodyLines(rows: seq<Row>, body: seq<Row>): (ls: seq<string>)
    ensures |ls| == |body| && forall i :: 0 <= i < |body| ==> ls[i] == RStrip(RawLine(rows, body[i]))
  {
    seq(|body|, i requires 0 <= i < |body| => RStrip(RawLine(rows, body[i])))
  }

  /** The lines between the two fence markers. */
  function InnerLines(header: Row, body: seq<Row>): seq<string> {
    var rows := [header] + body;
    [RStrip(RawLine(rows, header)), RStrip(RawRule(rows))] + BodyLines(rows, body)
  }

  function Block(header: Row, body: seq<Row>): string {
    "```\n" + JoinLines(InnerLines(header, body)) + "\n```"
  }

  function StripCells(strip: string -> string, row: Row): (r: Row)
    ensures |r| == |row| && forall i :: 0 <= i < |row| ==> r[i] == strip(row[i])
  {
    seq(|row|, i requires 0 <= i < |row| => strip(row[i]))
  }

  function StripRows(strip: string -> string, body: seq<Row>): (r: seq<Row>)
    ensures |r| == |body| && forall i :: 0 <= i < |body| ==> r[i] == StripCells(strip, body[i])
  {
    seq(|body|, i requires 0 <= i < |body| => StripCells(strip, body[i]))
  }

  /** The aligned block if it fits the screen, else the plain list of the unstripped cells. */
  function Auto(strip: string -> string, header: Row, body: seq<Row>): string {
    if BlockWidth(StripCells(strip, header), StripRows(strip, body)) <= MAX_MOBILE_TABLE_WIDTH
    then Block(StripCells(strip, header), StripRows(strip, body))
    else PlainList(header, body)
  }

  // ---- Widths and alignment ----

  /** No column is wider than its widest cell, and there are no more columns than the longest row has. */
  lemma {:induction false} WidthsAreAttained(rows: seq<Row>, c: nat)
    requires rows != []
    ensures exists i :: 0 <= i < |rows| && |CellAt(rows[i], c)| == ColWidth(rows, c)
    ensures exists i :: 0 <= i < |rows| && |rows[i]| == Width(rows)
  {
    hide CellAt;
    var front := rows[..|rows| - 1];
    assert rows[|rows| - 1] == Last(rows);
    if front == [] {
      assert ColWidth(front, c) == 0 && Width(front) == 0;
      assert ColWidth(rows, c) == |CellAt(Last(rows), c)| && Width(rows) == |Last(rows)|;
    } else {
      WidthsAreAttained(front, c);
      var i :| 0 <= i < |front| && |CellAt(front[i], c)| == ColWidth(front, c);
      var j :| 0 <= j < |front| && |front[j]| == Width(front);
      assert rows[i] == front[i] && rows[j] == front[j];
    }
  }

  /** The first `n` padded columns take exactly their widths and the gaps between them. */
  lemma {:induction false} JoinedWidth(rows: seq<Row>, ps: seq<string>, n: nat)
    requires |ps| == n && forall c :: 0 <= c < n ==> |ps[c]| == ColWidth(rows, c)
    ensures |Join("  ", ps)| == SumWidths(rows, n) + 2 * if n == 0 then 0 else n - 1
    ensures n > 0 ==> |Join("  ", ps)| + 2 == Offset(rows, n)
    decreases n
  {
    if n > 0 {
      JoinedWidth(rows, ps[..n - 1], n - 1);
    }
  }

  /** In a joined row every padded column stands at its own offset. */
  lemma {:induction false} ColumnStandsAt(rows: seq<Row>, ps: seq<string>, n: nat, c: nat)
    requires |ps| == n && c < n && forall k :: 0 <= k < n ==> |ps[k]| == ColWidth(rows, k)
    ensures var line := Join("  ", ps);
            Offset(rows, c) + |ps[c]| <= |line| && line[Offset(rows, c)..Offset(rows, c) + |ps[c]|] == ps[c]
    decreases n
  {
    hide ColWidth, SumWidths, Join;
    JoinStep("  ", ps);
    if n == 1 {
      assert Offset(rows, 0) == 0;
      SliceBehind("", ps[0]);
    } else {
      var front := ps[..n - 1];
      if c < n - 1 {
        ColumnStandsAt(rows, front, n - 1, c);
        SliceInFront(Join("  ", front), "  " + ps[n - 1], Offset(rows, c), Offset(rows, c) + |ps[c]|);
      } else {
        JoinedWidth(rows, front, n - 1);
        SliceBehind(Join("  ", front) + "  ", ps[n - 1]);
      }
    }
  }

  lemma JoinStep(sep: string, parts: seq<string>)
    requires parts != []
    ensures Join(sep, parts) == (if |parts| == 1 then "" else Join(sep, parts[..|parts| - 1]) + sep) + Last(parts)
    ensures |parts| > 1 ==> Join(sep, parts) == Join(sep, parts[..|parts| - 1]) + (sep + Last(parts))
  {
  }

  lemma SliceInFront(front: string, back: string, at: nat, end: nat)
    requires at <= end <= |front|
    ensures (front + back)[at..end] == front[at..end]
  {
  }

  lemma SliceBehind(front: string, back: string)
    ensures (front + back)[|front|..|front| + |back|] == back
  {
  }

  /** Before its trailing whitespace is cut, every row is as wide as the block, each cell at its column's offset. */
  lemma RawRowsAreAligned(header: Row, body: seq<Row>, row: Row, c: nat)
    requires row in [header] + body && c < Width([header] + body)
    ensures var rows := [header] + body;
            var line, at, cell := RawLine(rows, row), Offset(rows, c), CellAt(row, c);
            && |line| == BlockWidth(header, body)
            && at + |cell| <= |line| && line[at..at + |cell|] == cell
  {
    hide Join, ColWidth, Width, Padded, CellAt, SumWidths, Offset;
    var rows := [header] + body;
    var n := Width(rows);
    var ps := Padded(rows, row, n);
    PaddedLength(rows, row, n);
    PaddedWidths(rows, row, n);
    PaddedHoldsCell(rows, row, n, c);
    JoinedWidth(rows, ps, n);
    ColumnStandsAt(rows, ps, n, c);
    var line, at, cell := RawLine(rows, row), Offset(rows, c), CellAt(row, c);
    PrefixOfSlice(line, at, ps[c], cell);
  }

  /**
  In the emitted lines every cell that is not blank stands, up to its own trailing whitespace, at its
  column's offset: line 0 is the header's, line 1 the rule, line `r + 1` that of body row `r`.
  */
  lemma RowsAreAligned(header: Row, body: seq<Row>, r: nat, c: nat)
    requires r < |[header] + body| && c < Width([header] + body)
    ensures var rows := [header] + body;
            var line := InnerLines(header, body)[if r == 0 then 0 else r + 1];
            var at, cell := Offset(rows, c), RStrip(CellAt(rows[r], c));
            && line == RStrip(RawLine(rows, rows[r])) && |RawLine(rows, rows[r])| == BlockWidth(header, body)
            && (cell != "" ==> at + |cell| <= |line| && line[at..at + |cell|] == cell)
  {
    hide RawLine, Width, RStrip, CellAt, Offset, BlockWidth, IsSpace;
    var rows := [header] + body;
    RawRowsAreAligned(header, body, rows[r], c);
    if RStrip(CellAt(rows[r], c)) != "" {
      var raw, cell := RawLine(rows, rows[r]), CellAt(rows[r], c);
      CutKeepsSolid(raw, RStrip(raw), Offset(rows, c), cell, RStrip(cell));
    }
  }

  lemma SlicesAgree(raw: string, at: nat, cell: string, k: nat)
    requires at + |cell| <= |raw| && raw[at..at + |cell|] == cell && k < |cell|
    ensures raw[at + k] == cell[k]
  {
    assert raw[at..at + |cell|][k] == raw[at + k];
  }

  lemma CutKeepsSolid(raw: string, line: string, at: nat, cell: string, kept: string)
    requires at + |cell| <= |raw| && raw[at..at + |cell|] == cell
    requires line == RStrip(raw) && kept == RStrip(cell) && kept != ""
    ensures at + |kept| <= |line| && line[at..at + |kept|] == kept
  {
    hide *;
    KeptEndsSolid(cell, kept);
    SlicesAgree(raw, at, cell, |kept| - 1);
    SolidIsKept(raw, line, at + |kept| - 1);
    SlicePrefix(raw, line, at, cell, kept);
  }

  lemma KeptEndsSolid(s: string, r: string)
    requires r == RStrip(s) && r != ""
    ensures r <= s && !IsSpace(s[|r| - 1])
  {
    hide RStrip, IsSpace;
    assert Last(r) == s[|r| - 1];
  }

  lemma SolidIsKept(s: string, r: string, i: nat)
    requires r == RStrip(s) && i < |s| && !IsSpace(s[i])
    ensures i < |r|
  {
    hide RStrip, IsSpace;
  }

  lemma SlicePrefix(raw: string, line: string, at: nat, cell: string, kept: string)
    requires at + |cell| <= |raw| && raw[at..at + |cell|] == cell
    requires line <= raw && kept <= cell && at + |kept| <= |line|
    ensures line[at..at + |kept|] == kept
  {
    forall k | 0 <= k < |kept| ensures line[at + k] == kept[k] {
      SlicesAgree(raw, at, cell, k);
    }
  }

  lemma PrefixOfSlice(line: string, at: nat, piece: string, front: string)
    requires at + |piece| <= |line| && line[at..at + |piece|] == piece && front <= piece
    ensures at + |front| <= |line| && line[at..at + |front|] == front
  {
    assert line[at..at + |front|] == piece[..|front|];
  }

  lemma PaddedHoldsCell(rows: seq<Row>, row: Row, n: nat, c: nat)
    requires c < n
    ensures |Padded(rows, row, n)| == n && CellAt(row, c) <= Padded(rows, row, n)[c]
  {
  }

  lemma PaddedWidths(rows: seq<Row>, row: Row, n: nat)
    requires row in rows
    ensures forall c :: 0 <= c < n ==> |Padded(rows, row, n)[c]| == ColWidth(rows, c)
  {
    var i :| 0 <= i < |rows| && rows[i] == row;
    forall c | 0 <= c < n ensures |Padded(rows, row, n)[c]| == ColWidth(rows, c) {
      assert |CellAt(rows[i], c)| <= ColWidth(rows, c);
    }
  }

  lemma RStripShortens(s: string)
    ensures |RStrip(s)| <= |s|
  {
  }

  /** Every line inside the fences is at most the block width. */
  lemma LinesFitBlock(header: Row, body: seq<Row>, i: nat)
    requires i < |InnerLines(header, body)|
    ensures |InnerLines(header, body)[i]| <= BlockWidth(header, body)
  {
    hide RStrip, Join, ColWidth, Width, SumWidths, Padded, RuleCells;
    var rows := [header] + body;
    var n := Width(rows);
    if i == 1 {
      RuleWidths(rows, n);
      JoinedWidth(rows, RuleCells(rows, n), n);
      RStripShortens(RawRule(rows));
    } else {
      var row := if i == 0 then header else body[i - 2];
      assert rows[if i == 0 then 0 else i - 1] == row;
      PaddedLength(rows, row, n);
      PaddedWidths(rows, row, n);
      JoinedWidth(rows, Padded(rows, row, n), n);
      RStripShortens(RawLine(rows, row));
    }
  }

  lemma PaddedLength(rows: seq<Row>, row: Row, n: nat)
    ensures |Padded(rows, row, n)| == n
  {
  }

  lemma RuleWidths(rows: seq<Row>, n: nat)
    ensures |RuleCells(rows, n)| == n && forall c :: 0 <= c < n ==> |RuleCells(rows, n)[c]| == ColWidth(rows, c)
  {
  }

  /**
  A table is rendered as the aligned block of its stripped cells exactly when a padded
  row takes at most 36 characters, and then no line of the block is longer; otherwise as the plain list.
  */
  lemma AutoFitsScreen(strip: string -> string, header: Row, body: seq<Row>)
    ensures var h, b := StripCells(strip, header), StripRows(strip, body);
            Auto(strip, header, body) == if |RawLine([h] + b, h)| <= 36 then Block(h, b) else PlainList(header, body)
    ensures var h, b := StripCells(strip, header), StripRows(strip, body);
            |RawLine([h] + b, h)| <= 36 ==> forall i :: 0 <= i < |InnerLines(h, b)| ==> |InnerLines(h, b)[i]| <= 36
  {
    hide BlockWidth, InnerLines, PlainList, Block, RawLine, Width, CellAt, Offset;
    var h, b := StripCells(strip, header), StripRows(strip, body);
    HeaderIsWide(h, b);
    forall i | 0 <= i < |InnerLines(h, b)| ensures |InnerLines(h, b)[i]| <= BlockWidth(h, b) {
      LinesFitBlock(h, b, i);
    }
  }

  lemma HeaderIsWide(header: Row, body: seq<Row>)
    ensures |RawLine([header] + body, header)| == BlockWidth(header, body)
  {
    hide Width, ColWidth, Join, Padded;
    var rows := [header] + body;
    var n := Width(rows);
    assert rows[0] == header;
    PaddedLength(rows, header, n);
    PaddedWidths(rows, header, n);
    JoinedWidth(rows, Padded(rows, header, n), n);
  }

  /** The rule under the header: each column's dashes at the column's offset, as many as its widest cell has characters. */
  lemma RuleUnderlinesColumns(header: Row, body: seq<Row>, c: nat)
    requires c < Width([header] + body) && ColWidth([header] + body, c) > 0
    ensures var rows := [header] + body;
            var line, at, w := InnerLines(header, body)[1], Offset(rows, c), ColWidth(rows, c);
            at + w <= |line| && line[at..at + w] == Dashes(w)
  {
    hide Join, ColWidth, Width, RuleCells, RStrip, Offset, IsSpace, BodyLines, RawLine;
    var rows := [header] + body;
    var n, w := Width(rows), ColWidth(rows, c);
    var ps := RuleCells(rows, n);
    RuleWidths(rows, n);
    ColumnStandsAt(rows, ps, n, c);
    DashesStay(w);
    CutKeepsSolid(RawRule(rows), RStrip(RawRule(rows)), Offset(rows, c), Dashes(w), RStrip(Dashes(w)));
  }

  lemma DashesStay(n: nat)
    ensures RStrip(Dashes(n)) == Dashes(n)
  {
  }

  // ---- Characters of cells ----

  predicate CharsOf(part: string, whole: string) {
    forall c :: c in part ==> c in whole
  }

  lemma StripChars(s: string)
    ensures CharsOf(Strip(s), s)
  {
    hide IsSpace, LStrip, RStrip;
    var l := LStrip(s);
    var r := RStrip(l);
    forall c | c in r ensures c in s {
      var i :| 0 <= i < |r| && r[i] == c;
      assert l[i] == c && s[|s| - |l| + i] == c;
    }
  }

  lemma {:induction false} StripBarsChars(s: string)
    ensures CharsOf(StripBars(s), s)
    decreases |s|
  {
    if s != "" && s[0] == '|' {
      StripBarsChars(s[1..]);
      assert forall c :: c in s[1..] ==> c in s;
    } else if s != "" && Last(s) == '|' {
      StripBarsChars(s[..|s| - 1]);
    }
  }

  /** A cell holds only characters of its line. */
  lemma CellChars(line: string, i: nat)
    requires i < |Cells(line)|
    ensures CharsOf(Cells(line)[i], line)
  {
    hide Strip, StripBars, SplitOn;
    var a := Strip(line);
    var b := StripBars(a);
    StripChars(line);
    StripBarsChars(a);
    SplitOnChars('|', b, i);
    StripChars(SplitOn('|', b)[i]);
  }

  /** Cells as the parser gives them: no newline and no bar. */
  predicate PlainRow(row: Row) {
    forall i :: 0 <= i < |row| ==> NoNewline(row[i]) && '|' !in row[i]
  }

  predicate PlainRows(rows: seq<Row>) {
    forall i :: 0 <= i < |rows| ==> PlainRow(rows[i])
  }

  /** No cell contains a bar. */
  lemma CellsHaveNoBar(line: string, i: nat)
    requires i < |Cells(line)|
    ensures '|' !in Cells(line)[i]
  {
    hide Strip, StripBars;
    StripChars(SplitOn('|', StripBars(Strip(line)))[i]);
  }

  lemma CellsArePlain(line: string)
    requires NoNewline(line)
    ensures PlainRow(Cells(line))
  {
    hide Cells;
    forall i | 0 <= i < |Cells(line)| ensures NoNewline(Cells(line)[i]) && '|' !in Cells(line)[i] {
      CellChars(line, i);
      CellsHaveNoBar(line, i);
    }
  }

  /**
  A row written between bars reads back as its cells without the whitespace around each, provided the
  outer two are not empty (all leading and trailing bars are dropped at once).
  */
  lemma CellsRoundTrip(cells: Row)
    requires cells != [] && cells[0] != "" && Last(cells) != ""
    requires forall i :: 0 <= i < |cells| ==> '|' !in cells[i]
    ensures |Cells(Barred(Join("|", cells)))| == |cells|
    ensures forall i :: 0 <= i < |cells| ==> Cells(Barred(Join("|", cells)))[i] == Strip(cells[i])
  {
    hide IsSpace, StripBars, SplitOn, LStrip, RStrip, Strip, Barred, Join;
    var x := Join("|", cells);
    JoinEnds("|", cells);
    assert cells[0][0] in cells[0] && Last(Last(cells)) in Last(cells);
    OneCell(x);
    BarredIsSolid(x);
    assert "|" == ['|'];
    SplitOnJoin('|', cells);
  }

  lemma BarredIsSolid(x: string)
    ensures Strip(Barred(x)) == Barred(x)
  {
    hide Strip, IsSpace;
    BarIsNoSpace();
    SolidLine(Barred(x));
  }

  /** What a joined text starts and ends with. */
  lemma {:induction false} JoinEnds(sep: string, parts: seq<string>)
    requires parts != [] && parts[0] != "" && Last(parts) != ""
    ensures Join(sep, parts) != "" && Join(sep, parts)[0] == parts[0][0]
    ensures Last(Join(sep, parts)) == Last(Last(parts))
    decreases |parts|
  {
    if |parts| > 1 {
      JoinStarts(sep, parts[..|parts| - 1]);
    }
  }

  lemma {:induction false} JoinStarts(sep: string, parts: seq<string>)
    requires parts != [] && parts[0] != ""
    ensures Join(sep, parts) != "" && Join(sep, parts)[0] == parts[0][0]
    decreases |parts|
  {
    if |parts| > 1 {
      JoinStarts(sep, parts[..|parts| - 1]);
    }
  }

  /** The plain list of a table has no bar left: the table form is gone. */
  lemma PlainListHasNoBar(header: string, body: seq<string>)
    ensures '|' !in PlainList(Cells(header), BodyCells(body))
  {
    hide Cells, Join, JoinLines;
    var h, b := Cells(header), BodyCells(body);
    forall i | 0 <= i < |h| ensures '|' !in h[i] {
      CellsHaveNoBar(header, i);
    }
    var ls := PlainLines(h, b);
    forall k | 0 <= k < |ls| ensures '|' !in ls[k] {
      if b == [] {
        NonEmptyFrom(h);
        JoinAvoids('|', ", ", NonEmpty(h));
      } else {
        var ps := PairTexts(h, b[k]);
        forall i | 0 <= i < |ps| ensures '|' !in ps[i] {
          CellsHaveNoBar(body[k], i);
        }
        JoinAvoids('|', "; ", ps);
      }
    }
    JoinLinesAvoids('|', ls);
  }

  lemma {:induction false} NonEmptyFrom(cells: Row)
    ensures forall i :: 0 <= i < |NonEmpty(cells)| ==> NonEmpty(cells)[i] in cells && NonEmpty(cells)[i] != ""
    decreases |cells|
  {
    if cells != [] {
      NonEmptyFrom(cells[..|cells| - 1]);
    }
  }

  lemma NonEmptyStep(a: Row, c: string)
    ensures NonEmpty(a + [c]) == NonEmpty(a) + if c == "" then [] else [c]
  {
    assert (a + [c])[..|a|] == a;
  }

  /** The cells that are not empty, in order: nothing else is kept, dropped or moved. */
  lemma {:induction false} NonEmptyConcat(a: Row, b: Row)
    ensures NonEmpty(a + b) == NonEmpty(a) + NonEmpty(b)
    decreases |b|
  {
    hide NonEmpty;
    if b == [] {
      assert a + b == a && NonEmpty(b) == [] by { NoneIsEmpty(); }
    } else {
      var front := b[..|b| - 1];
      NonEmptyConcat(a, front);
      NonEmptyStep(front, Last(b));
      NonEmptyStep(a + front, Last(b));
      assert b == front + [Last(b)] && a + b == (a + front) + [Last(b)];
    }
  }

  lemma NoneIsEmpty()
    ensures NonEmpty([]) == []
  {
  }

  /** Each header cell of a table without rows is written in its one bullet. */
  lemma HeaderBulletHoldsCell(header: Row, c: nat) returns (front: string, back: string)
    requires c < |header| && header[c] != ""
    ensures |PlainLines(header, [])| == 1 && PlainLines(header, [])[0] == "- " + (front + header[c] + back)
  {
    hide Join, NonEmpty;
    var k := NonEmptyAt(header, c);
    front, back := JoinContains(", ", NonEmpty(header), k);
  }

  lemma NonEmptyAt(header: Row, c: nat) returns (k: nat)
    requires c < |header| && header[c] != ""
    ensures k < |NonEmpty(header)| && NonEmpty(header)[k] == header[c]
  {
    hide NonEmpty;
    var before, after := header[..c], header[c + 1..];
    assert header == (before + [header[c]]) + after;
    NonEmptyConcat(before + [header[c]], after);
    NonEmptyStep(before, header[c]);
    k := |NonEmpty(before)|;
  }

  /** Each body cell is written in its row's bullet, behind its column's header. */
  lemma BulletHoldsCell(header: Row, body: seq<Row>, r: nat, c: nat) returns (front: string, back: string)
    requires r < |body| && c < |body[r]|
    ensures var entry := if c < |header| && header[c] != "" then header[c] + ": " + body[r][c] else body[r][c];
            PlainLines(header, body)[r] == front + entry + back
  {
    hide Join;
    var ps := PairTexts(header, body[r]);
    var before;
    before, back := JoinContains("; ", ps, c);
    front := "- " + before;
    assert "- " + (before + ps[c] + back) == front + ps[c] + back;
  }

  lemma {:induction false} JoinContains(sep: string, parts: seq<string>, i: nat) returns (front: string, back: string)
    requires i < |parts|
    ensures Join(sep, parts) == front + parts[i] + back
    decreases |parts|
  {
    var n := |parts| - 1;
    if n == 0 {
      front, back := "", "";
    } else if i == n {
      front, back := Join(sep, parts[..n]) + sep, "";
    } else {
      var f, b := JoinContains(sep, parts[..n], i);
      front, back := f, b + sep + parts[n];
      assert (f + parts[i] + b) + sep + parts[n] == f + parts[i] + (b + sep + parts[n]);
    }
  }

  // ---- Fence lines of a rendering ----

  lemma BulletIsQuiet(text: string)
    ensures !IsFence(Bullet(text)) && !IsTableRow(Bullet(text))
  {
    var s := Bullet(text);
    assert LStrip(s) == s;
    var r := RStrip(s);
    assert r != "" ==> r[0] == '-';
  }

  lemma {:induction false} NonEmptyPlain(cells: Row)
    requires PlainRow(cells)
    ensures PlainRow(NonEmpty(cells))
    decreases |cells|
  {
    if cells != [] {
      NonEmptyPlain(cells[..|cells| - 1]);
    }
  }

  lemma PlainLinesArePlain(header: Row, body: seq<Row>, i: nat)
    requires PlainRow(header) && PlainRows(body) && i < |PlainLines(header, body)|
    ensures NoNewline(PlainLines(header, body)[i]) && exists t :: PlainLines(header, body)[i] == Bullet(t)
  {
    if body == [] {
      NonEmptyPlain(header);
      JoinAvoids('\n', ", ", NonEmpty(header));
    } else {
      var ps := PairTexts(header, body[i]);
      assert PlainRow(body[i]);
      forall k | 0 <= k < |ps| ensures NoNewline(ps[k]) {
      }
      JoinAvoids('\n', "; ", ps);
    }
  }

  lemma {:induction false} QuietLines(ls: seq<string>)
    requires forall i :: 0 <= i < |ls| ==> !IsFence(ls[i])
    ensures FenceBehind(ls, false) == false
    decreases |ls|
  {
    hide IsFence;
    if ls != [] {
      QuietLines(ls[1..]);
    }
  }

  /** The plain list is bullets, which are neither fences nor table rows. */
  lemma PlainListIsQuiet(header: Row, body: seq<Row>)
    requires PlainRow(header) && PlainRows(body)
    ensures var ls := SplitLines(PlainList(header, body));
            NoRows(ls) && FenceBehind(ls, false) == false
  {
    hide IsFence, IsTableRow, SplitLines, PlainLines, Bullet;
    var ls := PlainLines(header, body);
    assert ls != [] by { PlainLinesNonempty(header, body); }
    forall i | 0 <= i < |ls| ensures NoNewline(ls[i]) && !IsFence(ls[i]) && !IsTableRow(ls[i]) {
      PlainLinesArePlain(header, body, i);
      var t :| ls[i] == Bullet(t);
      BulletIsQuiet(t);
    }
    SplitJoin(ls);
    AllLinesPlain(ls);
    QuietLines(ls);
  }

  lemma PlainLinesNonempty(header: Row, body: seq<Row>)
    ensures PlainLines(header, body) != []
  {
  }

  lemma MarkerIsFence()
    ensures IsFence("```") && !IsTableRow("```")
  {
    var s := "```";
    assert LStrip(s) == s && RStrip(s) == s;
  }

  /** The first cell of the row that is not blank starts with a fence marker. */
  predicate RowOpens(row: Row) {
    exists c :: 0 <= c < |row| && IsFence(row[c]) && forall k :: 0 <= k < c ==> AllSpace(row[k])
  }

  /** The first of `ps` that is not blank starts with `p`. */
  predicate FirstLeads(p: string, ps: seq<string>) {
    exists c :: 0 <= c < |ps| && Leads(p, ps[c]) && forall k :: 0 <= k < c ==> AllSpace(ps[k])
  }

  /** An odd number of rows open with a fence marker. */
  predicate OddOpen(rows: seq<Row>) {
    rows != [] && RowOpens(rows[0]) != OddOpen(rows[1..])
  }

  lemma GapIsBlank()
    ensures AllSpace("  ")
  {
  }

  lemma BlankConcat(a: string, b: string)
    ensures AllSpace(a + b) <==> AllSpace(a) && AllSpace(b)
  {
    hide IsSpace;
    var t := a + b;
    assert forall i :: 0 <= i < |b| ==> t[|a| + i] == b[i];
    assert forall i :: 0 <= i < |a| ==> t[i] == a[i];
  }

  lemma {:induction false} JoinedBlank(ps: seq<string>)
    ensures AllSpace(Join("  ", ps)) <==> forall k :: 0 <= k < |ps| ==> AllSpace(ps[k])
    decreases |ps|
  {
    hide AllSpace;
    if |ps| == 0 {
      NothingIsBlank();
    } else if |ps| > 1 {
      var n := |ps| - 1;
      var front := ps[..n];
      JoinedBlank(front);
      GapIsBlank();
      BlankConcat(Join("  ", front), "  ");
      BlankConcat(Join("  ", front) + "  ", ps[n]);
      assert forall k :: 0 <= k < n ==> front[k] == ps[k];
    }
  }

  lemma NothingIsBlank()
    ensures AllSpace("")
  {
  }

  /** A joined row opens with a marker exactly when its first column that is not blank does. */
  lemma {:induction false} JoinedLeads(p: string, ps: seq<string>)
    requires IsMarker(p)
    ensures Leads(p, Join("  ", ps)) <==> FirstLeads(p, ps)
    decreases |ps|
  {
    hide AllSpace, Leads, IsMarker;
    if |ps| == 0 {
      NothingIsBlank();
      BlankLeadsNothing(p, "");
    } else if |ps| == 1 {
      assert Join("  ", ps) == ps[0];
    } else {
      var n := |ps| - 1;
      var front := ps[..n];
      JoinedLeads(p, front);
      JoinedBlank(front);
      GapIsBlank();
      LeadsGap(p, Join("  ", front), "  ", ps[n]);
      assert forall k :: 0 <= k < n ==> front[k] == ps[k];
      FirstLeadsStep(p, front, ps[n]);
      assert ps == front + [ps[n]];
    }
  }

  lemma FirstLeadsStep(p: string, front: seq<string>, last: string)
    ensures FirstLeads(p, front + [last])
            <==> FirstLeads(p, front) || ((forall k :: 0 <= k < |front| ==> AllSpace(front[k])) && Leads(p, last))
  {
    hide AllSpace, Leads;
    var all := front + [last];
    assert forall k :: 0 <= k < |front| ==> all[k] == front[k];
    if FirstLeads(p, front) {
      var c :| 0 <= c < |front| && Leads(p, front[c]) && forall k :: 0 <= k < c ==> AllSpace(front[k]);
      assert Leads(p, all[c]);
    }
    if (forall k :: 0 <= k < |front| ==> AllSpace(front[k])) && Leads(p, last) {
      assert Leads(p, all[|front|]);
    }
  }

  /** Padding changes neither what a cell starts with nor whether it is blank. */
  lemma PaddingLeads(p: string, cell: string, w: nat)
    requires IsMarker(p)
    ensures (Leads(p, LJust(cell, w)) <==> Leads(p, cell)) && (AllSpace(LJust(cell, w)) <==> AllSpace(cell))
  {
    hide LStrip, IsSpace;
    var pad := Spaces(Max(|cell|, w) - |cell|);
    assert AllSpace(pad) by { SpaceIsSpace(); }
    assert LJust(cell, w) == cell + pad + "";
    BlankLeadsNothing(p, "");
    LeadsGap(p, cell, pad, "");
    BlankConcat(cell, pad);
  }

  lemma PaddedLeads(p: string, rows: seq<Row>, row: Row, n: nat)
    requires IsMarker(p) && |row| <= n
    ensures FirstLeads(p, Padded(rows, row, n)) <==> FirstLeads(p, row)
  {
    hide AllSpace, Leads, IsMarker, LJust, ColWidth;
    var ps := Padded(rows, row, n);
    forall c | 0 <= c < n ensures (Leads(p, ps[c]) <==> Leads(p, CellAt(row, c))) && (AllSpace(ps[c]) <==> AllSpace(CellAt(row, c))) {
      PaddingLeads(p, CellAt(row, c), ColWidth(rows, c));
    }
    NothingIsBlank();
    BlankLeadsNothing(p, "");
    if FirstLeads(p, row) {
      var c :| 0 <= c < |row| && Leads(p, row[c]) && forall k :: 0 <= k < c ==> AllSpace(row[k]);
      assert Leads(p, ps[c]);
    }
    if FirstLeads(p, ps) {
      var c :| 0 <= c < |ps| && Leads(p, ps[c]) && forall k :: 0 <= k < c ==> AllSpace(ps[k]);
      assert Leads(p, CellAt(row, c)) && c < |row| && Leads(p, row[c]);
      assert forall k :: 0 <= k < c ==> AllSpace(ps[k]) && AllSpace(CellAt(row, k)) && CellAt(row, k) == row[k];
    }
  }

  /** A line of the block is a fence exactly when its row opens with a marker. */
  lemma LineIsFenceIff(rows: seq<Row>, row: Row)
    requires row in rows
    ensures IsFence(RStrip(RawLine(rows, row))) <==> RowOpens(row)
  {
    hide Leads, RStrip, AllSpace, IsFence, Padded, Width;
    var raw := RawLine(rows, row);
    FenceLeads(RStrip(raw));
    var n := Width(rows);
    assert |row| <= n by { RowFitsWidth(rows, row); }
    forall p | IsMarker(p) ensures Leads(p, RStrip(raw)) <==> FirstLeads(p, row) {
      LeadsCut(p, raw);
      JoinedLeads(p, Padded(rows, row, n));
      PaddedLeads(p, rows, row, n);
    }
    assert IsMarker("```") && IsMarker("~~~");
    RowOpensIff(row);
  }

  lemma RowFitsWidth(rows: seq<Row>, row: Row)
    requires row in rows
    ensures |row| <= Width(rows)
  {
  }

  lemma RowOpensIff(row: Row)
    ensures RowOpens(row) <==> FirstLeads("```", row) || FirstLeads("~~~", row)
  {
    hide Leads, AllSpace, IsFence;
    forall c | 0 <= c < |row| ensures IsFence(row[c]) <==> Leads("```", row[c]) || Leads("~~~", row[c]) {
      FenceLeads(row[c]);
    }
  }

  lemma RuleOpensNoFence(rows: seq<Row>)
    ensures !IsFence(RStrip(RawRule(rows)))
  {
    hide LStrip, RStrip, IsSpace, IsFence, Join, Width;
    var raw := RawRule(rows);
    FenceLeads(RStrip(raw));
    var ps := RuleCells(rows, Width(rows));
    forall p, i | IsMarker(p) && 0 <= i < |ps| ensures !Leads(p, ps[i]) {
      var l := LStrip(ps[i]);
      assert l != "" ==> l[0] == ps[i][|ps[i]| - |l|] == '-';
    }
    forall p | IsMarker(p) ensures !Leads(p, RStrip(raw)) {
      JoinedLeads(p, ps);
      LeadsCut(p, raw);
    }
    assert IsMarker("```") && IsMarker("~~~");
  }

  lemma RawLinePlain(rows: seq<Row>, row: Row)
    requires PlainRow(row)
    ensures NoNewline(RStrip(RawLine(rows, row))) && '|' !in RStrip(RawLine(rows, row))
  {
    hide RStrip;
    var ps := Padded(rows, row, Width(rows));
    forall i | 0 <= i < |ps| ensures NoNewline(ps[i]) && '|' !in ps[i] {
      assert ps[i] == CellAt(row, i) + Spaces(|ps[i]| - |CellAt(row, i)|);
    }
    JoinAvoids('\n', "  ", ps);
    JoinAvoids('|', "  ", ps);
    assert RStrip(RawLine(rows, row)) <= RawLine(rows, row);
  }

  lemma RawRulePlain(rows: seq<Row>)
    ensures NoNewline(RStrip(RawRule(rows))) && '|' !in RStrip(RawRule(rows))
  {
    hide RStrip;
    JoinAvoids('\n', "  ", RuleCells(rows, Width(rows)));
    JoinAvoids('|', "  ", RuleCells(rows, Width(rows)));
    assert RStrip(RawRule(rows)) <= RawRule(rows);
  }

  /** The lines of the block: no newline and no table row among them. */
  lemma BlockLines(header: Row, body: seq<Row>)
    requires PlainRow(header) && PlainRows(body)
    ensures SplitLines(Block(header, body)) == ["```"] + InnerLines(header, body) + ["```"]
    ensures NoRows(SplitLines(Block(header, body)))
  {
    hide IsTableRow, SplitLines, RawLine, RawRule, RStrip, PlainRow;
    var rows, inner := [header] + body, InnerLines(header, body);
    forall i | 0 <= i < |inner| ensures NoNewline(inner[i]) && !IsTableRow(inner[i]) {
      if i == 1 {
        RawRulePlain(rows);
      } else {
        RawLinePlain(rows, if i == 0 then header else body[i - 2]);
      }
      if IsTableRow(inner[i]) {
        RowHasBar(inner[i]);
      }
    }
    SplitAtNewline("```", JoinLines(inner) + "\n```");
    SplitAtNewline(JoinLines(inner), "```");
    SplitPlain("```");
    SplitJoin(inner);
    AllLinesPlain(inner);
    assert Block(header, body) == "```" + "\n" + (JoinLines(inner) + "\n```");
    assert JoinLines(inner) + "\n```" == JoinLines(inner) + "\n" + "```";
    assert ["```"] + (inner + ["```"]) == ["```"] + inner + ["```"];
    MarkerIsFence();
  }

  lemma {:induction false} FenceBehindConcat(a: seq<string>, b: seq<string>, inFence: bool)
    ensures FenceBehind(a + b, inFence) == FenceBehind(b, FenceBehind(a, inFence))
    decreases |a|
  {
    hide IsFence;
    if a == [] {
      assert a + b == b;
    } else {
      assert (a + b)[1..] == a[1..] + b;
      FenceBehindConcat(a[1..], b, if IsFence(a[0]) then !inFence else inFence);
    }
  }

  lemma FenceBehindOne(line: string, inFence: bool)
    ensures FenceBehind([line], inFence) == if IsFence(line) then !inFence else inFence
  {
    hide IsFence;
    assert [line][1..] == [];
  }

  lemma {:induction false} RowLinesFlip(rows: seq<Row>, part: seq<Row>, inFence: bool)
    requires forall i :: 0 <= i < |part| ==> part[i] in rows
    ensures FenceBehind(BodyLines(rows, part), inFence) == (inFence != OddOpen(part))
    decreases |part|
  {
    hide IsFence, RStrip, RawLine, RowOpens;
    if part != [] {
      LineIsFenceIff(rows, part[0]);
      var ls := BodyLines(rows, part);
      assert ls[1..] == BodyLines(rows, part[1..]);
      RowLinesFlip(rows, part[1..], if IsFence(ls[0]) then !inFence else inFence);
    }
  }

  lemma BetweenMarkers(inner: seq<string>)
    ensures FenceBehind(["```"] + inner + ["```"], false) == FenceBehind(inner, false)
  {
    hide IsFence, FenceBehind;
    MarkerIsFence();
    FenceBehindConcat(["```"] + inner, ["```"], false);
    FenceBehindConcat(["```"], inner, false);
    FenceBehindOne("```", false);
    FenceBehindFlips(inner, true);
    FenceBehindOne("```", FenceBehind(inner, true));
  }

  lemma TwoLines(top: string, rule: string, back: seq<string>)
    requires !IsFence(rule)
    ensures FenceBehind([top, rule] + back, false) == FenceBehind(back, IsFence(top))
  {
    hide IsFence, FenceBehind;
    assert [top, rule] + back == [top] + ([rule] + back);
    FenceBehindConcat([top], [rule] + back, false);
    FenceBehindConcat([rule], back, IsFence(top));
    FenceBehindOne(top, false);
    FenceBehindOne(rule, IsFence(top));
  }

  /** A block flips the fence state exactly when an odd number of its rows open with a marker. */
  lemma BlockFlipsIff(header: Row, body: seq<Row>)
    ensures FenceBehind(["```"] + InnerLines(header, body) + ["```"], false) == OddOpen([header] + body)
  {
    hide IsFence, RStrip, RawLine, RawRule, RowOpens, FenceBehind, BodyLines;
    var rows := [header] + body;
    assert rows[0] == header && rows[1..] == body && forall i :: 0 <= i < |body| ==> rows[i + 1] == body[i];
    BetweenMarkers(InnerLines(header, body));
    LineIsFenceIff(rows, header);
    RuleOpensNoFence(rows);
    TwoLines(RStrip(RawLine(rows, header)), RStrip(RawRule(rows)), BodyLines(rows, body));
    RowLinesFlip(rows, body, RowOpens(header));
  }

  // ---- The two public rewritings ----

  const ToPlainList: Render := (h: Row, b: seq<Row>) => PlainList(h, b)

  function ToAuto(strip: string -> string): Render {
    (h: Row, b: seq<Row>) => Auto(strip, h, b)
  }

  /** Emphasis stripping only deletes characters. */
  ghost predicate OnlyDeletes(strip: string -> string) {
    forall s :: CharsOf(strip(s), s)
  }

  lemma BodyCellsArePlain(body: seq<string>)
    requires forall i :: 0 <= i < |body| ==> NoNewline(body[i])
    ensures PlainRows(BodyCells(body))
  {
    hide PlainRow, Cells;
    forall i | 0 <= i < |body| ensures PlainRow(BodyCells(body)[i]) {
      CellsArePlain(body[i]);
    }
  }

  lemma {:induction false} SourceInSources(blocks: seq<Tables.Block>, k: nat, line: string)
    requires k < |blocks| && line in SourceOf(blocks[k])
    ensures line in Sources(blocks)
    decreases k
  {
    hide SourceOf;
    if k > 0 {
      SourceInSources(blocks[1..], k - 1, line);
    }
  }

  /** The lines of every table of a parse are lines of the text. */
  lemma BlockLinesArePlain(ls: seq<string>, inFence: bool, k: nat)
    requires forall i :: 0 <= i < |ls| ==> NoNewline(ls[i])
    requires k < |Parse(ls, inFence)| && Parse(ls, inFence)[k].Table?
    ensures var b := Parse(ls, inFence)[k];
            NoNewline(b.header) && forall i :: 0 <= i < |b.body| ==> NoNewline(b.body[i])
  {
    hide Parse, Sources, NoNewline;
    var blocks := Parse(ls, inFence);
    var b := blocks[k];
    ParseKeepsEveryLine(ls, inFence);
    SourceInSources(blocks, k, b.header);
    forall i | 0 <= i < |b.body| ensures NoNewline(b.body[i]) {
      assert SourceOf(b)[2 + i] == b.body[i];
      SourceInSources(blocks, k, b.body[i]);
    }
  }

  method TablesToPlainList(text: string) returns (result: string)
    ensures result == Transformed(text, ToPlainList)
  {
    result := TransformTables(text, ToPlainList);
  }

  method FlattenGfmTables(text: string, strip: string -> string) returns (result: string)
    ensures result == Transformed(text, ToAuto(strip))
  {
    result := TransformTables(text, ToAuto(strip));
  }

  const NeverFlips: Flips := (h: Row, b: seq<Row>) => false

  /** `tables_to_plain_list` is idempotent, and its output has no table outside fences. */
  lemma PlainListIdempotent(text: string)
    ensures var once := Transformed(text, ToPlainList);
            AllVerbatim(Parse(SplitLines(once), false)) && Transformed(once, ToPlainList) == once
  {
    hide Parse, SplitLines, Transformed, PlainList, Exposed, Cells, BodyCells;
    var blocks := Parse(SplitLines(text), false);
    SplitLinesPlain(text);
    forall k | 0 <= k < |blocks| && blocks[k].Table?
      ensures RenderedAs(blocks[k].header, blocks[k].body, ToPlainList, NeverFlips)
    {
      BlockLinesArePlain(SplitLines(text), false, k);
      CellsArePlain(blocks[k].header);
      BodyCellsArePlain(blocks[k].body);
      PlainListIsQuiet(Cells(blocks[k].header), BodyCells(blocks[k].body));
    }
    NothingExposed(SplitLines(text), false, NeverFlips);
    OutputHasNoTableIff(text, ToPlainList, NeverFlips);
    NoTableNoChange(Transformed(text, ToPlainList), ToPlainList);
  }

  // ---- Flattening twice ----

  /**
  The tables whose rendering changes the fence state for what follows: those that fit the screen and in
  which an odd number of rows have a fence marker at the head of their first cell that is not blank.
  */
  function FlipsFence(strip: string -> string): Flips {
    (h: Row, b: seq<Row>) =>
      BlockWidth(StripCells(strip, h), StripRows(strip, b)) <= MAX_MOBILE_TABLE_WIDTH
      && OddOpen([StripCells(strip, h)] + StripRows(strip, b))
  }

  lemma StripCellsPlain(strip: string -> string, row: Row)
    requires OnlyDeletes(strip) && PlainRow(row)
    ensures PlainRow(StripCells(strip, row))
  {
    forall i | 0 <= i < |row| ensures NoNewline(strip(row[i])) && '|' !in strip(row[i]) {
      assert CharsOf(strip(row[i]), row[i]);
    }
  }

  lemma AutoRenders(strip: string -> string, header: Row, body: seq<Row>)
    requires PlainRow(header) && PlainRows(body)
    requires PlainRow(StripCells(strip, header)) && PlainRows(StripRows(strip, body))
    ensures var ls := SplitLines(Auto(strip, header, body));
            NoRows(ls) && FenceBehind(ls, false) == FlipsFence(strip)(header, body)
  {
    hide SplitLines, PlainList, Block, BlockWidth, NoRows, PlainRow, PlainRows, OddOpen, FenceBehind, InnerLines;
    PlainListIsQuiet(header, body);
    BlockLines(StripCells(strip, header), StripRows(strip, body));
    BlockFlipsIff(StripCells(strip, header), StripRows(strip, body));
  }

  lemma FlattenRenders(text: string, strip: string -> string)
    requires OnlyDeletes(strip)
    ensures RendersAs(Parse(SplitLines(text), false), ToAuto(strip), FlipsFence(strip))
  {
    hide Parse, SplitLines, Auto, FlipsFence, Cells, BodyCells, PlainRow, OnlyDeletes;
    var blocks := Parse(SplitLines(text), false);
    SplitLinesPlain(text);
    forall k | 0 <= k < |blocks| && blocks[k].Table?
      ensures RenderedAs(blocks[k].header, blocks[k].body, ToAuto(strip), FlipsFence(strip))
    {
      BlockLinesArePlain(SplitLines(text), false, k);
      var h, b := Cells(blocks[k].header), BodyCells(blocks[k].body);
      CellsArePlain(blocks[k].header);
      BodyCellsArePlain(blocks[k].body);
      StripCellsPlain(strip, h);
      forall i | 0 <= i < |b| ensures PlainRow(StripCells(strip, b[i])) {
        StripCellsPlain(strip, b[i]);
      }
      AutoRenders(strip, h, b);
    }
  }

  /** Flattening a flattened text changes nothing exactly when no table of a code block is exposed. */
  lemma FlattenIdempotentIff(text: string, strip: string -> string)
    requires OnlyDeletes(strip)
    ensures var once := Transformed(text, ToAuto(strip));
            Transformed(once, ToAuto(strip)) == once <==> !Exposed(SplitLines(text), false, false, FlipsFence(strip))
  {
    hide *;
    FlattenRenders(text, strip);
    OutputHasNoTableIff(text, ToAuto(strip), FlipsFence(strip));
    FlattenUnchangedIff(Transformed(text, ToAuto(strip)), strip);
  }

  predicate NoFenceCells(row: Row) {
    forall i :: 0 <= i < |row| ==> !IsFence(row[i])
  }

  /** No emphasis-stripped cell of any table outside fences starts with a fence marker. */
  ghost predicate NoFenceInCells(blocks: seq<Tables.Block>, strip: string -> string) {
    forall k :: 0 <= k < |blocks| && blocks[k].Table? ==>
      && NoFenceCells(StripCells(strip, Cells(blocks[k].header)))
      && forall i :: 0 <= i < |blocks[k].body| ==> NoFenceCells(StripCells(strip, Cells(blocks[k].body[i])))
  }

  lemma {:induction false} NoneOpen(rows: seq<Row>)
    requires forall i :: 0 <= i < |rows| ==> NoFenceCells(rows[i])
    ensures !OddOpen(rows)
    decreases |rows|
  {
    hide IsFence;
    if rows != [] {
      NoneOpen(rows[1..]);
    }
  }

  /** `flatten_gfm_tables` is idempotent when no emphasis-stripped cell starts with a fence marker. */
  lemma FlattenIdempotent(text: string, strip: string -> string)
    requires OnlyDeletes(strip) && NoFenceInCells(Parse(SplitLines(text), false), strip)
    ensures var once := Transformed(text, ToAuto(strip));
            AllVerbatim(Parse(SplitLines(once), false)) && Transformed(once, ToAuto(strip)) == once
  {
    hide Parse, SplitLines, Transformed, Auto, NoFenceCells, Cells, OnlyDeletes, OddOpen, BlockWidth, Exposed;
    var ls := SplitLines(text);
    var blocks := Parse(ls, false);
    forall k | 0 <= k < |blocks| && blocks[k].Table?
      ensures !FlipsFence(strip)(Cells(blocks[k].header), BodyCells(blocks[k].body))
    {
      NoneOpen([StripCells(strip, Cells(blocks[k].header))] + StripRows(strip, BodyCells(blocks[k].body)));
    }
    NothingExposed(ls, false, FlipsFence(strip));
    FlattenIdempotentIff(text, strip);
    FlattenUnchangedIff(Transformed(text, ToAuto(strip)), strip);
  }

  // ---- Fixed points of flattening ----

  lemma BlockStartsWithMarker(header: Row, body: seq<Row>)
    ensures SplitLines(Block(header, body))[0] == "```"
  {
    hide SplitLines, InnerLines;
    var rest := JoinLines(InnerLines(header, body)) + "\n```";
    assert Block(header, body) == "```" + "\n" + rest;
    SplitAtNewline("```", rest);
    SplitPlain("```");
  }

  lemma AutoStartsNoRow(strip: string -> string, header: Row, body: seq<Row>)
    requires PlainRow(header) && PlainRows(body)
    ensures !IsTableRow(SplitLines(Auto(strip, header, body))[0])
  {
    hide SplitLines, PlainList, Block, BlockWidth, IsTableRow, FenceBehind;
    PlainListIsQuiet(header, body);
    BlockStartsWithMarker(StripCells(strip, header), StripRows(strip, body));
    MarkerIsFence();
  }

  /** `flatten_gfm_tables` returns a text unchanged exactly when it has no table outside fences. */
  lemma FlattenUnchangedIff(text: string, strip: string -> string)
    ensures Transformed(text, ToAuto(strip)) == text <==> AllVerbatim(Parse(SplitLines(text), false))
  {
    hide Parse, SplitLines, Transformed, Auto, Cells, PlainRow, IsTableRow;
    var blocks := Parse(SplitLines(text), false);
    SplitLinesPlain(text);
    forall k | 0 <= k < |blocks| && blocks[k].Table?
      ensures !IsTableRow(SplitLines(Piece(blocks[k], ToAuto(strip)))[0])
    {
      BlockLinesArePlain(SplitLines(text), false, k);
      CellsArePlain(blocks[k].header);
      BodyCellsArePlain(blocks[k].body);
      AutoStartsNoRow(strip, Cells(blocks[k].header), BodyCells(blocks[k].body));
    }
    UnchangedIffNoTable(text, ToAuto(strip));
  }

  // ---- A cell that starts with a fence marker ----

  const MarkerCellLines := ["|```|", "|-|", "```", "|a|", "|-|", "```"]

  lemma SolidLine(s: string)
    requires s != "" && !IsSpace(s[0]) && !IsSpace(Last(s))
    ensures Strip(s) == s
  {
  }

  function Barred(c: string): string {
    "|" + c + "|"
  }

  /** A row of one solid cell. */
  lemma BarredCell(c: string)
    requires c != "" && '|' !in c && !IsSpace(c[0]) && !IsSpace(Last(c))
    ensures IsTableRow(Barred(c)) && !IsFence(Barred(c)) && Cells(Barred(c)) == [c]
  {
    hide IsSpace, StripBars, SplitOn, LStrip, RStrip, Strip;
    BarIsNoSpace();
    SolidLine(Barred(c));
    SolidLine(c);
    assert c[0] in c && Last(c) in c;
    assert StripBars(Barred(c)) == c by { OneCell(c); }
    SplitOnPlain('|', c);
    assert Cells(Barred(c)) == [c];
    assert Barred(c)[0] == '|';
  }

  lemma BarIsNoSpace()
    ensures !IsSpace('|')
  {
  }

  lemma OneCell(c: string)
    requires c != "" && c[0] != '|' && Last(c) != '|'
    ensures StripBars(Barred(c)) == c
  {
    var s := Barred(c);
    assert s[1..] == c + "|";
    assert (c + "|")[..|c|] == c;
    assert (c + "|")[0] != '|' && Last(c + "|") == '|';
    assert StripBars(c + "|") == StripBars(c) == c;
  }

  /** The one-cell table of a fence marker flips the fence state. */
  lemma MarkerTableFlips(strip: string -> string)
    requires strip("```") == "```"
    ensures StripCells(strip, ["```"]) == ["```"] && StripRows(strip, []) == []
    ensures FlipsFence(strip)(["```"], [])
  {
    hide BlockWidth, OddOpen, IsFence;
    var h: Row, b: seq<Row> := ["```"], [];
    assert StripCells(strip, h) == h && StripRows(strip, b) == b;
    MarkerWidth(h);
    MarkerIsFence();
    MarkerRowOpens(h);
    assert [h] + b == [h];
  }

  lemma MarkerRowOpens(h: Row)
    requires |h| == 1 && IsFence(h[0])
    ensures OddOpen([h])
  {
    hide IsFence;
    assert RowOpens(h) && [h][1..] == [];
  }

  lemma MarkerWidth(h: Row)
    requires h == ["```"]
    ensures BlockWidth(h, []) == 3
  {
    var rows := [h];
    assert [h] + [] == rows && rows[..0] == [];
    assert Width(rows) == 1 && ColWidth(rows, 0) == 3;
    assert SumWidths(rows, 1) == 3;
  }

  lemma DelimiterFacts()
    ensures !IsDelimiterRow("|```|") && !IsDelimiterRow("|a|") && IsDelimiterRow("|-|")
    ensures IsTableRow("|```|") && IsTableRow("|a|") && IsTableRow("|-|")
    ensures !IsFence("|```|") && !IsFence("|a|") && !IsFence("|-|")
    ensures Cells("|```|") == ["```"]
  {
    hide IsTableRow, IsFence, Cells;
    BarredCell("```");
    BarredCell("a");
    BarredCell("-");
    assert Barred("```") == "|```|" && Barred("a") == "|a|" && Barred("-") == "|-|";
    assert "|-|"[0] == '|';
    assert ["```"][0] == "```" && ["a"][0] == "a" && ["-"][0] == "-";
    assert !IsDelimiterCell("```") && !IsDelimiterCell("a") && IsDelimiterCell("-") by { DelimiterCells(); }
    assert Cells("|```|")[0] == "```" && Cells("|a|")[0] == "a" && Cells("|-|") == ["-"];
  }

  lemma DelimiterCells()
    ensures !IsDelimiterCell("```") && !IsDelimiterCell("a") && IsDelimiterCell("-")
  {
    assert "```"[0] == '`' && "a"[0] == 'a';
  }

  /** A table between two markers is left alone inside the fence and found with the fence state flipped. */
  lemma TableBetweenMarkers(f: string, a: string, d: string, flips: Flips)
    requires IsFence(f) && !IsTableRow(f) && !IsFence(a) && !IsFence(d) && StartsTable([a, d, f])
    ensures AllVerbatim(Parse([f, a, d, f], false))
    ensures Exposed([f, a, d, f], false, true, flips)
  {
    hide IsFence, IsTableRow, IsDelimiterRow, Parse;
    var one, two, three := [f], [d] + [f], [a] + ([d] + [f]);
    assert three == [a, d, f] && [f] + three == [f, a, d, f] && [f] + [] == [f];
    ParseVerbatimStep(f, three, false);
    ParseVerbatimStep(a, two, true);
    ParseVerbatimStep(d, one, true);
    ParseVerbatimStep(f, [], true);
    ParseNothing(false);
    assert [f, a, d, f][1..] == three;
    assert Exposed(three, true, false, flips);
  }

  lemma TailStartsTable(a: string, d: string, f: string)
    requires a == "|a|" && d == "|-|" && f == "```"
    ensures IsFence(f) && !IsTableRow(f) && !IsFence(a) && !IsFence(d) && StartsTable([a, d, f])
  {
    hide *;
    DelimiterFacts();
    MarkerIsFence();
    StartsTableIntro(a, d, f);
  }

  lemma StartsTableIntro(a: string, d: string, f: string)
    requires IsTableRow(a) && !IsDelimiterRow(a) && IsTableRow(d) && IsDelimiterRow(d)
    ensures StartsTable([a, d, f])
  {
  }

  /** A table that flips the fence state, in front of a code block with a table in it. */
  lemma FlippingTableExposes(h: string, d: string, f: string, a: string, flips: Flips)
    requires !IsFence(h) && IsFence(f) && !IsTableRow(f) && !IsFence(a) && !IsFence(d)
    requires StartsTable([h, d, f]) && StartsTable([a, d, f]) && flips(Cells(h), BodyCells([]))
    ensures Parse([h, d, f, a, d, f], false) == [Table(h, d, [])] + Parse([f, a, d, f], false)
    ensures AllVerbatim(Parse([f, a, d, f], false))
    ensures Exposed([h, d, f, a, d, f], false, false, flips)
  {
    hide IsFence, IsTableRow, IsDelimiterRow, Parse, Cells;
    var ls := [h, d, f, a, d, f];
    TableBetweenMarkers(f, a, d, flips);
    ParseTableStep(ls, 2);
    assert ls[2..] == [f, a, d, f] && ls[2..2] == [];
    BodyEndsAt(ls[2..], 0);
  }

  /**
  Flattening is not idempotent in general: the marker in the first table's cell flips the fence
  state on the second pass, which then rewrites a table inside a code block.
  */
  lemma FlattenNotIdempotent(strip: string -> string)
    requires strip("```") == "```"
    ensures var once := Transformed(JoinLines(MarkerCellLines), ToAuto(strip));
            Transformed(once, ToAuto(strip)) != once
  {
    hide *;
    var text := JoinLines(MarkerCellLines);
    MarkerLines(text);
    MarkerCellExposes("|```|", "|-|", "```", "|a|", strip);
    OutputHasNoTableIff(text, ToAuto(strip), FlipsFence(strip));
    FlattenUnchangedIff(Transformed(text, ToAuto(strip)), strip);
  }

  lemma MarkerLines(text: string)
    requires text == JoinLines(MarkerCellLines)
    ensures SplitLines(text) == ["|```|", "|-|", "```", "|a|", "|-|", "```"]
  {
    hide SplitLines, JoinLines;
    SplitJoin(MarkerCellLines);
    AllLinesPlain(MarkerCellLines);
  }

  lemma MarkerCellExposes(h: string, d: string, f: string, a: string, strip: string -> string)
    requires h == "|```|" && d == "|-|" && f == "```" && a == "|a|" && strip("```") == "```"
    ensures RendersAs(Parse([h, d, f, a, d, f], false), ToAuto(strip), FlipsFence(strip))
    ensures Exposed([h, d, f, a, d, f], false, false, FlipsFence(strip))
  {
    hide *;
    DelimiterFacts();
    MarkerIsFence();
    TailStartsTable(a, d, f);
    StartsTableIntro(h, d, f);
    MarkerTableFlips(strip);
    NoBody();
    FlippingTableExposes(h, d, f, a, FlipsFence(strip));
    MarkerPlain("```");
    AutoRenders(strip, ["```"], []);
    AutoApplied(strip, ["```"], []);
    OneTableRenders(h, d, Parse([f, a, d, f], false), ToAuto(strip), FlipsFence(strip), Auto(strip, ["```"], []));
  }

  lemma AutoApplied(strip: string -> string, header: Row, body: seq<Row>)
    ensures ToAuto(strip)(header, body) == Auto(strip, header, body)
  {
  }

  lemma NoBody()
    ensures BodyCells([]) == [] && PlainRows([])
  {
  }

  lemma MarkerPlain(p: string)
    requires IsMarker(p)
    ensures PlainRow([p])
  {
  }

  lemma OneTableRenders(h: string, d: string, rest: seq<Tables.Block>, render: Render, flips: Flips, text: string)
    requires AllVerbatim(rest) && render(Cells(h), BodyCells([])) == text
    requires NoRows(SplitLines(text)) && FenceBehind(SplitLines(text), false) == flips(Cells(h), BodyCells([]))
    ensures RendersAs([Table(h, d, [])] + rest, render, flips)
  {
    hide Cells, BodyCells, SplitLines, NoRows, FenceBehind;
  }
}
