/**
Fence-aware rewriting of GFM pipe tables (src/stackowl/channels/_format.py:26-140; section 4.10,
"Tables (extension)", of the GitHub Flavored Markdown specification).
*/
module Tables {
  import opened Common
  import opened Text
  import opened Lines

  // ---- Rows ----

  function StripBars(s: string): string {
    if s != "" && s[0] == '|' then StripBars(s[1..])
    else if s != "" && Last(s) == '|' then StripBars(s[..|s| - 1])
    else s
  }

  function StripAll(cells: seq<string>): (r: seq<string>)
    ensures |r| == |cells| && forall i :: 0 <= i < |cells| ==> r[i] == Strip(cells[i])
  {
    seq(|cells|, i requires 0 <= i < |cells| => Strip(cells[i]))
  }

  function Cells(line: string): (cells: seq<string>)
    ensures |cells| > 0
  {
    StripAll(SplitOn('|', StripBars(Strip(line))))
  }

  predicate IsTableRow(line: string) {
    StartsWith(Strip(line), "|")
  }

  predicate AllDashes(s: string) {
    s != "" && forall i :: 0 <= i < |s| ==> s[i] == '-'
  }

  /** `:?-+:?`, the cell being stripped already. */
  predicate IsDelimiterCell(c: string) {
    var tail := if c != "" && c[0] == ':' then c[1..] else c;
    AllDashes(if tail != "" && Last(tail) == ':' then tail[..|tail| - 1] else tail)
  }

  predicate IsDelimiterRow(line: string) {
    '|' in line && forall i :: 0 <= i < |Cells(line)| ==> IsDelimiterCell(Cells(line)[i])
  }

  predicate IsFence(line: string) {
    StartsWith(Strip(line), "```") || StartsWith(Strip(line), "~~~")
  }

  /** A table row: the first character that is no whitespace is a bar. */
  lemma TableRowIff(line: string)
    ensures IsTableRow(line) <==> exists i :: 0 <= i < |line| && line[i] == '|' && forall k :: 0 <= k < i ==> IsSpace(line[k])
  {
    hide LStrip, RStrip;
    var l := LStrip(line);
    var r := RStrip(l);
    var n := |line| - |l|;
    BarIsSolid();
    assert r != "" ==> r[0] == l[0] == line[n];
    assert l != "" && l[0] == '|' ==> r != "" && line[n] == '|';
  }

  lemma BarIsSolid()
    ensures !IsSpace('|')
  {
  }

  /** Dashes from `a` up to `b`, at least one, with at most one colon on either side. */
  predicate DashesBetween(c: string, a: nat, b: nat) {
    && a < b <= |c| && a <= 1 && |c| - b <= 1 && (a == 1 ==> c[0] == ':') && (b < |c| ==> c[b] == ':')
    && forall k :: a <= k < b ==> c[k] == '-'
  }

  /** What a delimiter cell looks like. */
  lemma DelimiterCellIff(c: string)
    ensures IsDelimiterCell(c) <==> exists a: nat, b: nat :: DashesBetween(c, a, b)
  {
    hide IsDelimiterCell, AllDashes;
    var a, b := WithoutColons(c);
    AllDashesIff(c, a, b);
    if IsDelimiterCell(c) {
      assert DashesBetween(c, a, b);
    }
    if x: nat, y: nat :| DashesBetween(c, x, y) {
      assert c[x] == '-' && c[y - 1] == '-';
      assert x == a && y == b;
    }
  }

  lemma AllDashesIff(c: string, a: nat, b: nat)
    requires a <= b <= |c|
    ensures AllDashes(c[a..b]) <==> a < b && forall k :: a <= k < b ==> c[k] == '-'
  {
    assert forall k :: a <= k < b ==> c[k] == c[a..b][k - a];
    assert forall i :: 0 <= i < b - a ==> c[a..b][i] == c[a + i];
  }

  /** The cell between its colons. */
  lemma WithoutColons(c: string) returns (a: nat, b: nat)
    ensures a <= b <= |c| && a <= 1 && |c| - b <= 1 && IsDelimiterCell(c) == AllDashes(c[a..b])
    ensures (a == 1 <==> c != "" && c[0] == ':') && (b < |c| <==> a < |c| && Last(c) == ':')
  {
    hide AllDashes;
    a := if c != "" && c[0] == ':' then 1 else 0;
    b := if a < |c| && Last(c) == ':' then |c| - 1 else |c|;
    var tail := c[a..];
    assert a < |c| ==> Last(tail) == Last(c);
    assert tail == if a == 1 then c[1..] else c;
    assert c[a..b] == if b < |c| then tail[..|tail| - 1] else tail;
  }

  // ---- Where the tables are ----

  datatype Block = Verbatim(line: string) | Table(header: string, delimiter: string, body: seq<string>)

  predicate StartsTable(ls: seq<string>) {
    |ls| >= 2 && IsTableRow(ls[0]) && !IsDelimiterRow(ls[0]) && IsTableRow(ls[1]) && IsDelimiterRow(ls[1])
  }

  predicate IsBodyRow(line: string) {
    IsTableRow(line) && !IsDelimiterRow(line)
  }

  function BodyLength(ls: seq<string>): (k: nat)
    ensures k <= |ls|
  {
    if ls == [] || !IsBodyRow(ls[0]) then 0 else 1 + BodyLength(ls[1..])
  }

  /** The lines as blocks: tables outside code fences, everything else verbatim. */
  function Parse(ls: seq<string>, inFence: bool): seq<Block>
    decreases |ls|
  {
    if ls == [] then []
    else if IsFence(ls[0]) then [Verbatim(ls[0])] + Parse(ls[1..], !inFence)
    else if !inFence && StartsTable(ls) then
      var j := 2 + BodyLength(ls[2..]);
      [Table(ls[0], ls[1], ls[2..j])] + Parse(ls[j..], false)
    else [Verbatim(ls[0])] + Parse(ls[1..], inFence)
  }

  function SourceOf(b: Block): seq<string> {
    match b
    case Verbatim(line) => [line]
    case Table(header, delimiter, body) => [header, delimiter] + body
  }

  function Sources(blocks: seq<Block>): seq<string> {
    if blocks == [] then [] else SourceOf(blocks[0]) + Sources(blocks[1..])
  }

  /** The blocks are the lines, in order: no line is lost, repeated or moved. */
  lemma {:induction false} ParseKeepsEveryLine(ls: seq<string>, inFence: bool)
    ensures Sources(Parse(ls, inFence)) == ls
    decreases |ls|
  {
    hide IsFence, IsTableRow, IsDelimiterRow, IsBodyRow, Sources;
    if ls == [] {
      assert Sources([]) == [] by { NoSources(); }
    } else if !IsFence(ls[0]) && !inFence && StartsTable(ls) {
      var j := 2 + BodyLength(ls[2..]);
      ParseKeepsEveryLine(ls[j..], false);
      SourcesStep(Table(ls[0], ls[1], ls[2..j]), Parse(ls[j..], false));
      assert ls == [ls[0], ls[1]] + ls[2..j] + ls[j..];
    } else {
      var next := if IsFence(ls[0]) then !inFence else inFence;
      ParseKeepsEveryLine(ls[1..], next);
      SourcesStep(Verbatim(ls[0]), Parse(ls[1..], next));
      assert ls == [ls[0]] + ls[1..];
    }
  }

  lemma NoSources()
    ensures Sources([]) == []
  {
  }

  lemma SourcesStep(b: Block, blocks: seq<Block>)
    ensures Sources([b] + blocks) == SourceOf(b) + Sources(blocks)
  {
    assert ([b] + blocks)[1..] == blocks;
  }

  // ---- Rendering ----

  type Render = (seq<string>, seq<seq<string>>) -> string

  function BodyCells(body: seq<string>): (r: seq<seq<string>>)
    ensures |r| == |body| && forall i :: 0 <= i < |body| ==> r[i] == Cells(body[i])
  {
    seq(|body|, i requires 0 <= i < |body| => Cells(body[i]))
  }

  function Piece(b: Block, render: Render): string {
    match b
    case Verbatim(line) => line
    case Table(header, _, body) => render(Cells(header), BodyCells(body))
  }

  function Pieces(blocks: seq<Block>, render: Render): (ps: seq<string>)
    ensures |ps| == |blocks| && forall i :: 0 <= i < |ps| ==> ps[i] == Piece(blocks[i], render)
  {
    seq(|blocks|, i requires 0 <= i < |blocks| => Piece(blocks[i], render))
  }

  function Transformed(text: string, render: Render): string {
    JoinLines(Pieces(Parse(SplitLines(text), false), render))
  }

  predicate AllVerbatim(blocks: seq<Block>) {
    forall i :: 0 <= i < |blocks| ==> blocks[i].Verbatim?
  }

  lemma {:induction false} VerbatimSources(blocks: seq<Block>, render: Render)
    requires AllVerbatim(blocks)
    ensures Pieces(blocks, render) == Sources(blocks)
    decreases |blocks|
  {
    if blocks != [] {
      VerbatimSources(blocks[1..], render);
      assert Pieces(blocks, render) == [blocks[0].line] + Pieces(blocks[1..], render);
    }
  }

  /** Text without a table outside fences is returned unchanged. */
  lemma NoTableNoChange(text: string, render: Render)
    requires AllVerbatim(Parse(SplitLines(text), false))
    ensures Transformed(text, render) == text
  {
    hide Parse, Pieces;
    VerbatimSources(Parse(SplitLines(text), false), render);
    ParseKeepsEveryLine(SplitLines(text), false);
    JoinSplit(text);
  }

  /** The first rendered line of every table is no table row. */
  predicate RendersNoRowFirst(blocks: seq<Block>, render: Render) {
    forall i :: 0 <= i < |blocks| && blocks[i].Table? ==> !IsTableRow(SplitLines(Piece(blocks[i], render))[0])
  }

  /** A table that is rewritten changes the lines, at the latest at its header. */
  lemma {:induction false} TableChangesLines(ls: seq<string>, inFence: bool, render: Render)
    requires forall i :: 0 <= i < |ls| ==> NoNewline(ls[i])
    requires !AllVerbatim(Parse(ls, inFence)) && RendersNoRowFirst(Parse(ls, inFence), render)
    ensures OutLines(Parse(ls, inFence), render) != ls
    decreases |ls|
  {
    hide IsFence, IsTableRow, IsDelimiterRow, IsBodyRow, SplitLines, Piece, OutLines;
    var blocks := Parse(ls, inFence);
    var b, tail := blocks[0], blocks[1..];
    assert blocks == [b] + tail;
    OutLinesStep(b, tail, render);
    if b.Table? {
      SplitLinesNonempty(Piece(b, render));
      assert OutLines(blocks, render)[0] == SplitLines(Piece(b, render))[0];
    } else {
      var next := if IsFence(ls[0]) then !inFence else inFence;
      assert tail == Parse(ls[1..], next);
      forall i | 0 <= i < |tail| && tail[i].Table? ensures !IsTableRow(SplitLines(Piece(tail[i], render))[0]) {
        assert tail[i] == blocks[i + 1];
      }
      TableChangesLines(ls[1..], next, render);
      PieceVerbatim(ls[0], render);
      assert ([ls[0]] + OutLines(tail, render))[1..] == OutLines(tail, render);
    }
  }

  lemma SplitLinesNonempty(t: string)
    ensures SplitLines(t) != []
  {
  }

  /** Text is returned unchanged exactly when it has no table outside fences. */
  lemma UnchangedIffNoTable(text: string, render: Render)
    requires RendersNoRowFirst(Parse(SplitLines(text), false), render)
    ensures Transformed(text, render) == text <==> AllVerbatim(Parse(SplitLines(text), false))
  {
    hide Parse, SplitLines, Pieces, RendersNoRowFirst;
    var ls := SplitLines(text);
    if AllVerbatim(Parse(ls, false)) {
      NoTableNoChange(text, render);
    } else {
      SplitLinesPlain(text);
      TableChangesLines(ls, false, render);
      ParseNonempty(text);
      PiecesNonempty(Parse(ls, false), render);
      SplitJoin(Pieces(Parse(ls, false), render));
    }
  }

  lemma PiecesNonempty(blocks: seq<Block>, render: Render)
    requires blocks != []
    ensures Pieces(blocks, render) != []
  {
  }

  // ---- Rewriting twice ----

  /** The output lines of a list of blocks. */
  function OutLines(blocks: seq<Block>, render: Render): seq<string> {
    AllLines(Pieces(blocks, render))
  }

  lemma OutLinesStep(b: Block, blocks: seq<Block>, render: Render)
    ensures OutLines([b] + blocks, render) == SplitLines(Piece(b, render)) + OutLines(blocks, render)
  {
    hide Pieces, Piece, SplitLines;
    PiecesStep(b, blocks, render);
    assert ([Piece(b, render)] + Pieces(blocks, render))[1..] == Pieces(blocks, render);
  }

  /** The fence state behind lines in front of which it is `inFence`. */
  function FenceBehind(ls: seq<string>, inFence: bool): bool {
    if ls == [] then inFence else FenceBehind(ls[1..], if IsFence(ls[0]) then !inFence else inFence)
  }

  predicate NoRows(ls: seq<string>) {
    forall i :: 0 <= i < |ls| ==> !IsTableRow(ls[i])
  }

  /** Whether the rendering of a table has an odd number of fence lines. */
  type Flips = (seq<string>, seq<seq<string>>) -> bool

  predicate RenderedAs(header: string, body: seq<string>, render: Render, flips: Flips) {
    var out := SplitLines(render(Cells(header), BodyCells(body)));
    NoRows(out) && FenceBehind(out, false) == flips(Cells(header), BodyCells(body))
  }

  /** No rendered table holds a table row, and `flips` tells which of them change the fence state. */
  predicate RendersAs(blocks: seq<Block>, render: Render, flips: Flips) {
    forall i :: 0 <= i < |blocks| && blocks[i].Table? ==> RenderedAs(blocks[i].header, blocks[i].body, render, flips)
  }

  /**
  Some table inside a code fence of the text lies outside the fences of the rewritten text: `inFence`
  is the fence state of the text and `again` that of the rewritten one, which the fence lines of both
  toggle and rendered tables may flip.
  */
  predicate Exposed(ls: seq<string>, inFence: bool, again: bool, flips: Flips)
    decreases |ls|
  {
    if ls == [] then false
    else if IsFence(ls[0]) then Exposed(ls[1..], !inFence, !again, flips)
    else if !inFence && StartsTable(ls) then
      var j := 2 + BodyLength(ls[2..]);
      Exposed(ls[j..], false, again != flips(Cells(ls[0]), BodyCells(ls[2..j])), flips)
    else (inFence && !again && StartsTable(ls)) || Exposed(ls[1..], inFence, again, flips)
  }

  lemma {:induction false} FenceBehindFlips(ls: seq<string>, inFence: bool)
    ensures FenceBehind(ls, inFence) == (inFence != FenceBehind(ls, false))
    decreases |ls|
  {
    hide IsFence;
    if ls != [] {
      FenceBehindFlips(ls[1..], if IsFence(ls[0]) then !inFence else inFence);
      FenceBehindFlips(ls[1..], IsFence(ls[0]));
    }
  }

  /** The line after a verbatim line: inside a fence, and if it is a table row, it is the next source line. */
  lemma NextOutLine(ls: seq<string>, inFence: bool, render: Render, flips: Flips)
    requires RendersAs(Parse(ls, inFence), render, flips) && forall i :: 0 <= i < |ls| ==> NoNewline(ls[i])
    ensures var out := OutLines(Parse(ls, inFence), render);
            && (out == [] <==> ls == [])
            && (out != [] && (inFence || IsTableRow(out[0])) ==> out[0] == ls[0])
  {
    hide IsFence, StartsTable, IsTableRow, SplitLines;
    if ls != [] {
      var blocks := Parse(ls, inFence);
      assert blocks == [blocks[0]] + blocks[1..];
      OutLinesStep(blocks[0], blocks[1..], render);
      if blocks[0].Verbatim? {
        PieceVerbatim(ls[0], render);
      } else {
        assert RenderedAs(blocks[0].header, blocks[0].body, render, flips);
        SplitLinesNonempty(Piece(blocks[0], render));
      }
    }
  }

  lemma PieceVerbatim(line: string, render: Render)
    requires NoNewline(line)
    ensures SplitLines(Piece(Verbatim(line), render)) == [line]
  {
    SplitPlain(line);
  }

  lemma ParseVerbatimStep(line: string, rest: seq<string>, inFence: bool)
    requires IsFence(line) || inFence || !StartsTable([line] + rest)
    ensures Parse([line] + rest, inFence)
            == [Verbatim(line)] + Parse(rest, if IsFence(line) then !inFence else inFence)
  {
    hide IsFence, StartsTable;
    assert ([line] + rest)[1..] == rest;
  }

  lemma VerbatimFirst(line: string, blocks: seq<Block>)
    ensures AllVerbatim([Verbatim(line)] + blocks) <==> AllVerbatim(blocks)
  {
    var all := [Verbatim(line)] + blocks;
    assert forall i :: 0 <= i < |blocks| ==> blocks[i] == all[i + 1];
  }

  /** Lines without a table row pass verbatim; only their fences matter to what follows. */
  lemma {:induction false} NoRowsPass(ls: seq<string>, rest: seq<string>, inFence: bool)
    requires NoRows(ls)
    ensures AllVerbatim(Parse(ls + rest, inFence)) <==> AllVerbatim(Parse(rest, FenceBehind(ls, inFence)))
    decreases |ls|
  {
    hide IsFence, IsTableRow, IsDelimiterRow, Parse, AllVerbatim;
    if ls == [] {
      assert ls + rest == rest;
    } else {
      var next := if IsFence(ls[0]) then !inFence else inFence;
      NoRowsPass(ls[1..], rest, next);
      assert ls + rest == [ls[0]] + (ls[1..] + rest);
      ParseVerbatimStep(ls[0], ls[1..] + rest, inFence);
      VerbatimFirst(ls[0], Parse(ls[1..] + rest, next));
    }
  }

  lemma TableFirst(ls: seq<string>)
    requires StartsTable(ls) && !IsFence(ls[0])
    ensures !AllVerbatim(Parse(ls, false))
  {
    hide IsFence, IsTableRow, IsDelimiterRow;
    assert Parse(ls, false)[0].Table?;
  }

  lemma RendersRest(b: Block, tail: seq<Block>, render: Render, flips: Flips)
    requires RendersAs([b] + tail, render, flips)
    ensures RendersAs(tail, render, flips) && (b.Table? ==> RenderedAs(b.header, b.body, render, flips))
  {
    hide RenderedAs;
    var all := [b] + tail;
    assert all[0] == b && forall i :: 0 <= i < |tail| ==> tail[i] == all[i + 1];
  }

  /** A second pass over the output finds no table outside the fences exactly when none is exposed. */
  lemma {:induction false} SecondPassIff(ls: seq<string>, inFence: bool, again: bool, render: Render, flips: Flips)
    requires forall i :: 0 <= i < |ls| ==> NoNewline(ls[i])
    requires RendersAs(Parse(ls, inFence), render, flips)
    ensures AllVerbatim(Parse(OutLines(Parse(ls, inFence), render), again)) <==> !Exposed(ls, inFence, again, flips)
    decreases |ls|
  {
    hide IsFence, OutLines, RendersAs, AllVerbatim, StartsTable, Parse;
    if ls == [] {
      ParseNothing(inFence);
      NoBlocksNoLines(render);
      ParseNothing(again);
      assert AllVerbatim([]) by { NoBlocksVerbatim(); }
    } else if !IsFence(ls[0]) && !inFence && StartsTable(ls) {
      SecondPassTable(ls, again, render, flips);
    } else {
      SecondPassLine(ls, inFence, again, render, flips);
    }
  }

  lemma ParseNothing(inFence: bool)
    ensures Parse([], inFence) == []
  {
  }

  lemma NoBlocksVerbatim()
    ensures AllVerbatim([])
  {
  }

  lemma {:induction false} SecondPassTable(ls: seq<string>, again: bool, render: Render, flips: Flips)
    requires forall i :: 0 <= i < |ls| ==> NoNewline(ls[i])
    requires RendersAs(Parse(ls, false), render, flips) && StartsTable(ls) && !IsFence(ls[0])
    ensures AllVerbatim(Parse(OutLines(Parse(ls, false), render), again)) <==> !Exposed(ls, false, again, flips)
    decreases |ls|, 0
  {
    hide IsFence, OutLines, RendersAs, AllVerbatim, IsTableRow, IsDelimiterRow, BodyLength, RenderedAs, Piece, SplitLines;
    var j := 2 + BodyLength(ls[2..]);
    var b, rest := Table(ls[0], ls[1], ls[2..j]), ls[j..];
    var tail := Parse(rest, false);
    assert Parse(ls, false) == [b] + tail;
    RendersRest(b, tail, render, flips);
    OutLinesStep(b, tail, render);
    SecondPassIff(rest, false, again != flips(Cells(b.header), BodyCells(b.body)), render, flips);
    RenderedTablePasses(b, OutLines(tail, render), again, render, flips);
  }

  lemma RenderedTablePasses(b: Block, rest: seq<string>, again: bool, render: Render, flips: Flips)
    requires b.Table? && RenderedAs(b.header, b.body, render, flips)
    ensures AllVerbatim(Parse(SplitLines(Piece(b, render)) + rest, again))
            <==> AllVerbatim(Parse(rest, again != flips(Cells(b.header), BodyCells(b.body))))
  {
    hide Parse, AllVerbatim, NoRows, FenceBehind, SplitLines, Cells, BodyCells;
    var out := SplitLines(Piece(b, render));
    FenceBehindFlips(out, again);
    NoRowsPass(out, rest, again);
  }

  lemma {:induction false} SecondPassLine(ls: seq<string>, inFence: bool, again: bool, render: Render, flips: Flips)
    requires forall i :: 0 <= i < |ls| ==> NoNewline(ls[i])
    requires RendersAs(Parse(ls, inFence), render, flips)
    requires ls != [] && (IsFence(ls[0]) || inFence || !StartsTable(ls))
    ensures AllVerbatim(Parse(OutLines(Parse(ls, inFence), render), again)) <==> !Exposed(ls, inFence, again, flips)
    decreases |ls|, 0
  {
    hide IsFence, SplitLines, OutLines, IsTableRow, IsDelimiterRow, BodyLength, RendersAs, AllVerbatim, Piece, Parse;
    var next := if IsFence(ls[0]) then !inFence else inFence;
    var nextAgain := if IsFence(ls[0]) then !again else again;
    assert ls == [ls[0]] + ls[1..];
    ParseVerbatimStep(ls[0], ls[1..], inFence);
    var tail := Parse(ls[1..], next);
    RendersRest(Verbatim(ls[0]), tail, render, flips);
    OutLinesStep(Verbatim(ls[0]), tail, render);
    PieceVerbatim(ls[0], render);
    NextOutLine(ls[1..], next, render, flips);
    SecondPassIff(ls[1..], next, nextAgain, render, flips);
    var out := [ls[0]] + OutLines(tail, render);
    if !IsFence(ls[0]) && !again && StartsTable(out) {
      TableFirst(out);
      assert out[1] == ls[1];
    } else {
      ParseVerbatimStep(ls[0], OutLines(tail, render), again);
      VerbatimFirst(ls[0], Parse(OutLines(tail, render), nextAgain));
    }
  }

  lemma NoBlocksNoLines(render: Render)
    ensures OutLines([], render) == []
  {
  }

  /** While both passes see the same fences and no rendering flips them, nothing is exposed. */
  lemma {:induction false} NothingExposed(ls: seq<string>, inFence: bool, flips: Flips)
    requires forall i :: 0 <= i < |Parse(ls, inFence)| && Parse(ls, inFence)[i].Table? ==>
               !flips(Cells(Parse(ls, inFence)[i].header), BodyCells(Parse(ls, inFence)[i].body))
    ensures !Exposed(ls, inFence, inFence, flips)
    decreases |ls|
  {
    hide IsFence, IsTableRow, IsDelimiterRow, IsBodyRow, Cells, BodyCells;
    if ls != [] {
      var blocks := Parse(ls, inFence);
      var tail := blocks[1..];
      assert forall i :: 0 <= i < |tail| ==> tail[i] == blocks[i + 1];
      if blocks[0].Table? {
        NothingExposed(ls[2 + |blocks[0].body|..], false, flips);
      } else {
        NothingExposed(ls[1..], if IsFence(ls[0]) then !inFence else inFence, flips);
      }
    }
  }

  /** The output of the rewriting has a table outside fences exactly when one is exposed. */
  lemma OutputHasNoTableIff(text: string, render: Render, flips: Flips)
    requires RendersAs(Parse(SplitLines(text), false), render, flips)
    ensures AllVerbatim(Parse(SplitLines(Transformed(text, render)), false))
            <==> !Exposed(SplitLines(text), false, false, flips)
  {
    hide Parse, SplitLines, JoinLines, RendersAs, Exposed, AllVerbatim;
    var ls := SplitLines(text);
    var pieces := Pieces(Parse(ls, false), render);
    ParseNonempty(text);
    SplitLinesPlain(text);
    SplitJoin(pieces);
    SecondPassIff(ls, false, false, render, flips);
  }

  lemma ParseNonempty(text: string)
    ensures Parse(SplitLines(text), false) != []
  {
    hide IsFence, StartsTable;
  }

  lemma SplitLinesPlain(text: string)
    ensures forall i :: 0 <= i < |SplitLines(text)| ==> NoNewline(SplitLines(text)[i])
  {
  }

  // ---- What counts as a table ----

  /** At line `i` a table starts outside the fences: a row that is no delimiter row, and a delimiter row under it. */
  predicate TableStartsAt(ls: seq<string>, inFence: bool, i: nat) {
    && i + 1 < |ls| && !FenceBehind(ls[..i], inFence) && !IsFence(ls[i])
    && IsTableRow(ls[i]) && !IsDelimiterRow(ls[i]) && IsTableRow(ls[i + 1]) && IsDelimiterRow(ls[i + 1])
  }

  /** The scan finds a table exactly when one starts somewhere. */
  lemma {:induction false} FindsTableIff(ls: seq<string>, inFence: bool)
    ensures AllVerbatim(Parse(ls, inFence)) <==> forall i: nat :: !TableStartsAt(ls, inFence, i)
    decreases |ls|
  {
    hide IsFence, IsTableRow, IsDelimiterRow, AllVerbatim, Parse;
    if ls == [] {
      ParseNothing(inFence);
      NoBlocksVerbatim();
    } else if TableStartsAt(ls, inFence, 0) {
      TableFirst(ls);
    } else {
      var next := if IsFence(ls[0]) then !inFence else inFence;
      assert ls == [ls[0]] + ls[1..];
      ParseVerbatimStep(ls[0], ls[1..], inFence);
      VerbatimFirst(ls[0], Parse(ls[1..], next));
      FindsTableIff(ls[1..], next);
      forall i: nat ensures TableStartsAt(ls, inFence, i + 1) <==> TableStartsAt(ls[1..], next, i) {
        StartsOneLater(ls, inFence, i);
      }
      if i: nat :| TableStartsAt(ls, inFence, i) {
        assert TableStartsAt(ls, inFence, (i - 1) + 1) && TableStartsAt(ls[1..], next, i - 1);
      }
      if i: nat :| TableStartsAt(ls[1..], next, i) {
        assert TableStartsAt(ls, inFence, i + 1);
      }
    }
  }

  lemma StartsOneLater(ls: seq<string>, inFence: bool, i: nat)
    requires ls != []
    ensures TableStartsAt(ls, inFence, i + 1)
            <==> TableStartsAt(ls[1..], if IsFence(ls[0]) then !inFence else inFence, i)
  {
    hide IsFence, IsTableRow, IsDelimiterRow;
    if i + 2 < |ls| {
      assert ls[..i + 1][0] == ls[0] && ls[..i + 1][1..] == ls[1..][..i];
    }
  }

  /** Lines in which no table starts stay as they are in front of anything but a delimiter row. */
  lemma {:induction false} FrontPasses(front: seq<string>, rest: seq<string>, inFence: bool, render: Render)
    requires AllVerbatim(Parse(front, inFence)) && (rest != [] ==> !IsDelimiterRow(rest[0]))
    ensures Pieces(Parse(front + rest, inFence), render) == front + Pieces(Parse(rest, FenceBehind(front, inFence)), render)
    decreases |front|
  {
    hide IsFence, IsTableRow, IsDelimiterRow, Parse, Pieces, AllVerbatim, Piece;
    if front == [] {
      assert front + rest == rest;
      assert front + Pieces(Parse(rest, inFence), render) == Pieces(Parse(rest, inFence), render);
    } else {
      var next := if IsFence(front[0]) then !inFence else inFence;
      assert front == [front[0]] + front[1..] && front + rest == [front[0]] + (front[1..] + rest);
      assert IsFence(front[0]) || inFence || !StartsTable(front) by {
        if !IsFence(front[0]) && !inFence && StartsTable(front) {
          TableFirst(front);
        }
      }
      ParseVerbatimStep(front[0], front[1..], inFence);
      VerbatimFirst(front[0], Parse(front[1..], next));
      FrontPasses(front[1..], rest, next, render);
      ParseVerbatimStep(front[0], front[1..] + rest, inFence);
      PiecesStep(Verbatim(front[0]), Parse(front[1..] + rest, next), render);
      PieceOfLine(front[0], render);
      Associative([front[0]], front[1..], Pieces(Parse(rest, FenceBehind(front, inFence)), render));
    }
  }

  lemma Associative(a: seq<string>, b: seq<string>, c: seq<string>)
    ensures a + (b + c) == a + b + c
  {
  }

  predicate AreLines(ls: seq<string>) {
    ls != [] && forall i :: 0 <= i < |ls| ==> NoNewline(ls[i])
  }

  lemma TransformedLines(ls: seq<string>, render: Render)
    requires AreLines(ls)
    ensures Transformed(JoinLines(ls), render) == JoinLines(Pieces(Parse(ls, false), render))
  {
    hide Parse, Pieces, JoinLines, SplitLines;
    SplitJoin(ls);
    AllLinesPlain(ls);
  }

  /**
  The first table of a text is replaced by the rendering of its header's and rows' cells; the lines
  in front of it stay, and what follows it is rewritten by itself.
  */
  lemma FirstTableIsRendered(front: seq<string>, header: string, delimiter: string, body: seq<string>, rest: seq<string>,
                             render: Render)
    requires AllVerbatim(Parse(front, false)) && !FenceBehind(front, false) && !IsFence(header)
    requires IsTableRow(header) && !IsDelimiterRow(header) && IsTableRow(delimiter) && IsDelimiterRow(delimiter)
    requires forall i :: 0 <= i < |body| ==> IsTableRow(body[i]) && !IsDelimiterRow(body[i])
    requires rest != [] ==> !(IsTableRow(rest[0]) && !IsDelimiterRow(rest[0]))
    requires AreLines(front + ([header, delimiter] + body + rest))
    ensures Transformed(JoinLines(front + ([header, delimiter] + body + rest)), render)
            == JoinLines(front + ([render(Cells(header), BodyCells(body))] + Pieces(Parse(rest, false), render)))
  {
    hide IsFence, IsTableRow, IsDelimiterRow, Parse, Pieces, Cells, BodyCells, JoinLines, SplitLines, AllVerbatim, FenceBehind;
    hide StartsTable, AreLines;
    var table := [header, delimiter] + body + rest;
    assert table[0] == header;
    TransformedLines(front + table, render);
    FrontPasses(front, table, false, render);
    TableRendered(header, delimiter, body, rest, render);
  }

  lemma TableRendered(header: string, delimiter: string, body: seq<string>, rest: seq<string>, render: Render)
    requires IsTableRow(header) && !IsDelimiterRow(header) && IsTableRow(delimiter) && IsDelimiterRow(delimiter)
    requires forall i :: 0 <= i < |body| ==> IsTableRow(body[i]) && !IsDelimiterRow(body[i])
    requires !IsFence(header) && (rest != [] ==> !(IsTableRow(rest[0]) && !IsDelimiterRow(rest[0])))
    ensures Pieces(Parse([header, delimiter] + body + rest, false), render)
            == [render(Cells(header), BodyCells(body))] + Pieces(Parse(rest, false), render)
  {
    hide IsFence, IsTableRow, IsDelimiterRow, Parse, Pieces, Cells, BodyCells;
    var table, j := [header, delimiter] + body + rest, 2 + |body|;
    assert table[2..j] == body && table[j..] == rest && forall i :: 2 <= i < j ==> table[i] == body[i - 2];
    assert j < |table| ==> table[j] == rest[0];
    ParseTableStep(table, j);
    PiecesStep(Table(header, delimiter, body), Parse(rest, false), render);
  }

  // ---- The loop ----

  lemma RowHasBar(line: string)
    requires IsTableRow(line)
    ensures '|' in line
  {
    var s := LStrip(line);
    assert RStrip(s)[0] == s[0] == line[|line| - |s|];
  }

  /** Without a bar there is no table, so the early return agrees with the rest. */
  lemma NoBarNoTable(text: string, render: Render)
    requires '|' !in text
    ensures Transformed(text, render) == text
  {
    hide Parse, IsTableRow;
    var ls := SplitLines(text);
    forall i | 0 <= i < |ls| ensures !IsTableRow(ls[i]) {
      if IsTableRow(ls[i]) {
        SplitOnChars('\n', text, i);
        RowHasBar(ls[i]);
      }
    }
    NoRowsNoTable(ls, false);
    NoTableNoChange(text, render);
  }

  lemma {:induction false} NoRowsNoTable(ls: seq<string>, inFence: bool)
    requires NoRows(ls)
    ensures AllVerbatim(Parse(ls, inFence))
    decreases |ls|
  {
    hide IsFence, IsTableRow, IsDelimiterRow;
    if ls != [] {
      NoRowsNoTable(ls[1..], if IsFence(ls[0]) then !inFence else inFence);
    }
  }

  lemma PiecesStep(b: Block, blocks: seq<Block>, render: Render)
    ensures Pieces([b] + blocks, render) == [Piece(b, render)] + Pieces(blocks, render)
  {
    hide Piece;
  }

  /** `out` is what the first `i` lines contribute; `inFence` is the fence state behind them. */
  ghost predicate Emitted(lines: seq<string>, i: nat, inFence: bool, out: seq<string>, render: Render)
    requires i <= |lines|
  {
    Pieces(Parse(lines, false), render) == out + Pieces(Parse(lines[i..], inFence), render)
  }

  lemma EmitLine(lines: seq<string>, i: nat, inFence: bool, out: seq<string>, render: Render)
    requires i < |lines| && Emitted(lines, i, inFence, out, render)
    requires IsFence(lines[i]) || inFence || !StartsTable(lines[i..])
    ensures Emitted(lines, i + 1, if IsFence(lines[i]) then !inFence else inFence, out + [lines[i]], render)
  {
    hide IsFence, StartsTable, Parse, Pieces, Piece;
    var next := if IsFence(lines[i]) then !inFence else inFence;
    SliceCons(lines, i);
    assert Piece(Verbatim(lines[i]), render) == lines[i] by { PieceOfLine(lines[i], render); }
    ParseVerbatimStep(lines[i], lines[i + 1..], inFence);
    var rest := Pieces(Parse(lines[i + 1..], next), render);
    PiecesStep(Verbatim(lines[i]), Parse(lines[i + 1..], next), render);
    assert out + ([lines[i]] + rest) == out + [lines[i]] + rest;
  }

  lemma SliceCons(lines: seq<string>, i: nat)
    requires i < |lines|
    ensures lines[i..] == [lines[i]] + lines[i + 1..]
  {
  }

  lemma PieceOfLine(line: string, render: Render)
    ensures Piece(Verbatim(line), render) == line
  {
  }

  lemma EmitTable(lines: seq<string>, i: nat, j: nat, out: seq<string>, render: Render)
    requires i + 2 <= j <= |lines| && Emitted(lines, i, false, out, render)
    requires !IsFence(lines[i]) && StartsTable(lines[i..])
    requires forall k :: i + 2 <= k < j ==> IsBodyRow(lines[k])
    requires j < |lines| ==> !IsBodyRow(lines[j])
    ensures Emitted(lines, j, false, out + [render(Cells(lines[i]), BodyCells(lines[i + 2..j]))], render)
  {
    hide IsFence, StartsTable, IsBodyRow, Parse, Pieces, Cells, BodyCells;
    var here := lines[i..];
    assert forall k :: 0 <= k < |here| ==> here[k] == lines[i + k];
    ParseTableStep(here, j - i);
    assert here[2..j - i] == lines[i + 2..j] && here[j - i..] == lines[j..];
    var b, rest := Table(lines[i], lines[i + 1], lines[i + 2..j]), Pieces(Parse(lines[j..], false), render);
    PiecesStep(b, Parse(lines[j..], false), render);
    assert out + ([Piece(b, render)] + rest) == out + [Piece(b, render)] + rest;
  }

  /** The rows of the table body that starts at `start`. */
  method CollectBody(lines: seq<string>, start: nat) returns (body: seq<seq<string>>, j: nat)
    requires start <= |lines|
    ensures start <= j <= |lines| && body == BodyCells(lines[start..j])
    ensures (forall k :: start <= k < j ==> IsBodyRow(lines[k])) && (j < |lines| ==> !IsBodyRow(lines[j]))
  {
    hide IsTableRow, IsDelimiterRow, Cells;
    body, j := [], start;
    while j < |lines| && IsTableRow(lines[j]) && !IsDelimiterRow(lines[j])
      invariant start <= j <= |lines|
      invariant forall k :: start <= k < j ==> IsBodyRow(lines[k])
      invariant body == BodyCells(lines[start..j])
    {
      assert lines[start..j + 1] == lines[start..j] + [lines[j]];
      body := body + [Cells(lines[j])];
      j := j + 1;
    }
  }

  /** Detects tables outside fences and replaces each by its rendering. */
  method TransformTables(text: string, render: Render) returns (result: string)
    ensures result == Transformed(text, render)
  {
    hide IsFence, IsTableRow, IsDelimiterRow, SplitLines, Pieces, Cells, BodyCells, Parse, Emitted;
    if '|' !in text {
      NoBarNoTable(text, render);
      return text;
    }
    var lines := SplitLines(text);
    var out: seq<string> := [];
    var i := 0;
    var inFence := false;
    NothingEmitted(lines, render);
    while i < |lines|
      invariant 0 <= i <= |lines| && Emitted(lines, i, inFence, out, render)
    {
      if IsFence(lines[i]) {
        EmitLine(lines, i, inFence, out, render);
        inFence := !inFence;
        out := out + [lines[i]];
        i := i + 1;
      } else if inFence {
        EmitLine(lines, i, inFence, out, render);
        out := out + [lines[i]];
        i := i + 1;
      } else if i + 1 < |lines| && IsTableRow(lines[i]) && !IsDelimiterRow(lines[i])
                && IsTableRow(lines[i + 1]) && IsDelimiterRow(lines[i + 1]) {
        var header := Cells(lines[i]);
        var body, j := CollectBody(lines, i + 2);
        EmitTable(lines, i, j, out, render);
        out := out + [render(header, body)];
        i := j;
      } else {
        EmitLine(lines, i, inFence, out, render);
        out := out + [lines[i]];
        i := i + 1;
      }
    }
    AllEmitted(lines, inFence, out, render);
    result := JoinLines(out);
  }

  lemma NothingEmitted(lines: seq<string>, render: Render)
    ensures Emitted(lines, 0, false, [], render)
  {
    hide Parse;
    assert lines[0..] == lines;
  }

  lemma AllEmitted(lines: seq<string>, inFence: bool, out: seq<string>, render: Render)
    requires Emitted(lines, |lines|, inFence, out, render)
    ensures out == Pieces(Parse(lines, false), render)
  {
    hide Pieces;
    assert lines[|lines|..] == [];
    NoPieces(inFence, render);
  }

  lemma ParseTableStep(ls: seq<string>, j: nat)
    requires StartsTable(ls) && !IsFence(ls[0]) && 2 <= j <= |ls|
    requires forall i :: 2 <= i < j ==> IsBodyRow(ls[i])
    requires j < |ls| ==> !IsBodyRow(ls[j])
    ensures Parse(ls, false) == [Table(ls[0], ls[1], ls[2..j])] + Parse(ls[j..], false)
  {
    hide IsFence, IsTableRow, IsDelimiterRow, IsBodyRow;
    BodyEndsAt(ls[2..], j - 2);
  }

  lemma NoPieces(inFence: bool, render: Render)
    ensures Pieces(Parse([], inFence), render) == []
  {
  }

  lemma {:induction false} BodyEndsAt(ls: seq<string>, k: nat)
    requires k <= |ls| && (forall i :: 0 <= i < k ==> IsBodyRow(ls[i])) && (k < |ls| ==> !IsBodyRow(ls[k]))
    ensures BodyLength(ls) == k
    decreases k
  {
    hide IsBodyRow;
    if k > 0 {
      BodyEndsAt(ls[1..], k - 1);
    }
  }
}
