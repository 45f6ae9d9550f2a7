/** Table helpers of the renderer: row and separator detection, cell
    splitting, and rendering one group of consecutive table lines. */
module Table {
  import opened Text
  import opened Wrappers
  import Inline

  /** The line has a character that is neither `|` nor white space. */
  predicate HasCellText(s: string) {
    exists k :: 0 <= k < |s| && s[k] != '|' && !IsSpace(s[k])
  }

  /** `_isTableRow`: the trimmed line contains `|`, and something other than white space
      remains once every `|` is removed. */
  predicate IsTableRow(line: string) {
    var t := Trim(line);
    '|' in t && !AllSpace(ReplaceChar(t, '|', ""))
  }

  /** At most one leading and one trailing `|` removed (`^\||\|$` with `/g`, or the
      `startsWith`/`endsWith` pair of `_parseTableCells`: both remove the same characters). */
  function StripPipes(t: string): (r: string)
    ensures |r| + 2 >= |t| && |r| <= |t|
  {
    var a := if |t| > 0 && t[0] == '|' then t[1..] else t;
    if |a| > 0 && a[|a| - 1] == '|' then a[..|a| - 1] else a
  }

  predicate IsSeparatorChar(c: char) {
    IsSpace(c) || c == '|' || c == ':' || c == '-'
  }

  /** `_isTableSeparator`: after trimming and stripping the edge pipes, the line is non-empty,
      made only of white space, `|`, `:` and `-`, and holds `---`. */
  predicate IsTableSeparator(line: string) {
    var t := StripPipes(Trim(line));
    && |t| > 0
    && (forall k :: 0 <= k < |t| ==> IsSeparatorChar(t[k]))
    && Contains(t, "---")
  }

  /** Neither end of the text is white space. */
  predicate Trimmed(s: string) {
    |s| > 0 ==> !IsSpace(s[0]) && !IsSpace(s[|s| - 1])
  }

  /** `.map((cell) => cell.trim())`. */
  function TrimAll(parts: seq<string>): seq<string>
  {
    seq(|parts|, k requires 0 <= k < |parts| => Trim(parts[k]))
  }

  /** `_parseTableCells`: the stripped line split on `|`, every cell trimmed. */
  function ParseTableCells(line: string): seq<string>
  {
    TrimAll(Split(StripPipes(Trim(line)), '|'))
  }

  /** One rendered table: the header cells, if the table has a header, and the body rows. */
  datatype TableModel = TableModel(header: Option<seq<string>>, body: seq<seq<string>>)

  /** The header rule: at least two lines, and the second one is a separator. */
  predicate HasHeader(lines: seq<string>) {
    |lines| >= 2 && IsTableSeparator(lines[1])
  }

  /** Every line `skip` does not reject, in order. The line test is a parameter so that the
      facts about the selection below hold for any test; the table uses `IsTableSeparator`. */
  function Kept(lines: seq<string>, skip: string -> bool): (r: seq<string>)
    ensures |r| <= |lines|
  {
    if |lines| == 0 then []
    else if skip(lines[0]) then Kept(lines[1..], skip)
    else [lines[0]] + Kept(lines[1..], skip)
  }

  /** The lines that become body rows: every line that is not a separator, in order. */
  function BodyLines(lines: seq<string>): seq<string>
  {
    Kept(lines, IsTableSeparator)
  }

  /** The cells of every line, in order, as `parse` splits them; the table uses
      `ParseTableCells`. */
  function CellsOf(lines: seq<string>, parse: string -> seq<string>): seq<seq<string>>
  {
    seq(|lines|, k requires 0 <= k < |lines| => parse(lines[k]))
  }

  /** The structure `_renderTable` builds from a group of table lines. */
  function TableOf(lines: seq<string>): TableModel
  {
    if HasHeader(lines) then TableModel(Some(ParseTableCells(lines[0])), CellsOf(BodyLines(lines[2..]), ParseTableCells))
    else TableModel(None, CellsOf(BodyLines(lines), ParseTableCells))
  }

  /** The cells of one row, each rendered by `inline` inside `tag`. The renderer is a parameter
      only so that the row-level facts below hold for any cell renderer; the table itself uses
      the inline formatter, `Inline.RenderInline`. */
  function CellsHtml(cells: seq<string>, tag: string, inline: string -> string): string
  {
    if |cells| == 0 then ""
    else "<" + tag + ">" + inline(cells[0]) + "</" + tag + ">" + CellsHtml(cells[1..], tag, inline)
  }

  /** One body row: `<tr>`, a `<td>` per cell, `</tr>`. */
  function RowHtml(cells: seq<string>, inline: string -> string): string
  {
    "<tr>" + CellsHtml(cells, "td", inline) + "</tr>"
  }

  function RowsHtml(rows: seq<seq<string>>, inline: string -> string): string
  {
    if |rows| == 0 then "" else RowHtml(rows[0], inline) + RowsHtml(rows[1..], inline)
  }

  /** The `<thead>` part: present only for a table with a header. */
  function HeadHtml(header: Option<seq<string>>, inline: string -> string): string
  {
    match header
    case Some(cells) => "<thead><tr>" + CellsHtml(cells, "th", inline) + "</tr></thead>"
    case None => ""
  }

  const TableOpen: string := "<table class=\"md-table\">"

  /** The table element around its head and its body rows. */
  function TableFrame(head: string, rows: string): string
  {
    TableOpen + head + "<tbody>" + rows + "</tbody></table>"
  }

  function TableHtml(t: TableModel): string
  {
    TableFrame(HeadHtml(t.header, Inline.RenderInline), RowsHtml(t.body, Inline.RenderInline))
  }

  /** `_renderTable`: nothing for no lines, otherwise the table built by `TableOf`. */
  function RenderTable(lines: seq<string>): string
  {
    if |lines| == 0 then "" else TableHtml(TableOf(lines))
  }

  // ---------------------------------------------------------------- lemmas

  lemma {:induction false} RemovedCharAbsent(s: string, c: char)
    ensures c !in ReplaceChar(s, c, "")
  {
    if |s| > 0 {
      RemovedCharAbsent(s[1..], c);
    }
  }

  lemma RemovePipesAllSpace(t: string)
    ensures AllSpace(ReplaceChar(t, '|', "")) <==> !HasCellText(t)
  {
    var r := ReplaceChar(t, '|', "");
    if HasCellText(t) {
      var k :| 0 <= k < |t| && t[k] != '|' && !IsSpace(t[k]);
      RemoveCharKeeps(t, '|', t[k]);
    }
    if !AllSpace(r) {
      var j :| 0 <= j < |r| && !IsSpace(r[j]);
      RemovedCharAbsent(t, '|');
      RemoveCharKeeps(t, '|', r[j]);
    }
  }

  lemma HasCellTextTrim(line: string)
    ensures HasCellText(Trim(line)) <==> HasCellText(line)
  {
    var t := Trim(line);
    if HasCellText(t) {
      var k :| 0 <= k < |t| && t[k] != '|' && !IsSpace(t[k]);
      TrimKeepsNonSpace(line, t[k]);
    }
    if HasCellText(line) {
      var k :| 0 <= k < |line| && line[k] != '|' && !IsSpace(line[k]);
      TrimKeepsNonSpace(line, line[k]);
      var j :| 0 <= j < |t| && t[j] == line[k];
    }
  }

  /** A table row is exactly a line that contains `|` and some character that is neither
      `|` nor white space; trimming does not matter. */
  lemma TableRowIff(line: string)
    ensures IsTableRow(line) <==> '|' in line && HasCellText(line)
  {
    TrimKeepsNonSpace(line, '|');
    RemovePipesAllSpace(Trim(line));
    HasCellTextTrim(line);
  }

  /** A separator line never has cell text beyond white space, `|`, `:` and `-`, and a line
      with `---` and only those characters is a separator. */
  lemma SeparatorIsNotRowText(line: string)
    requires IsTableSeparator(line)
    ensures forall k :: 0 <= k < |StripPipes(Trim(line))| ==> IsSeparatorChar(StripPipes(Trim(line))[k])
    ensures Contains(StripPipes(Trim(line)), "---")
  {
  }

  lemma {:induction false} CountAppend(a: string, b: string, c: char)
    ensures Count(a + b, c) == Count(a, c) + Count(b, c)
  {
    if |a| > 0 {
      assert (a + b)[1..] == a[1..] + b;
      CountAppend(a[1..], b, c);
    } else {
      assert a + b == b;
    }
  }

  /** How many edge pipes `StripPipes` removes. */
  function EdgePipes(t: string): nat
  {
    (if |t| > 0 && t[0] == '|' then 1 else 0) + (if |t| >= 2 && t[|t| - 1] == '|' then 1 else 0)
  }

  lemma StripPipesCount(t: string)
    ensures Count(StripPipes(t), '|') + EdgePipes(t) == Count(t, '|')
  {
    var a := if |t| > 0 && t[0] == '|' then t[1..] else t;
    if |t| > 0 && t[0] == '|' {
      CountAppend([t[0]], t[1..], '|');
      assert t == [t[0]] + t[1..];
    }
    if |a| > 0 && a[|a| - 1] == '|' {
      CountAppend(a[..|a| - 1], [a[|a| - 1]], '|');
      assert a == a[..|a| - 1] + [a[|a| - 1]];
    }
  }

  /** `_parseTableCells` yields one cell more than the pipes left after stripping at most one
      leading and one trailing pipe. */
  lemma ParseTableCellsCount(line: string)
    ensures |ParseTableCells(line)| == Count(Trim(line), '|') - EdgePipes(Trim(line)) + 1
  {
    SplitLength(StripPipes(Trim(line)), '|');
    StripPipesCount(Trim(line));
  }

  lemma TrimAllClean(parts: seq<string>)
    requires forall k :: 0 <= k < |parts| ==> '|' !in parts[k]
    ensures forall k :: 0 <= k < |TrimAll(parts)| ==> '|' !in TrimAll(parts)[k] && Trimmed(TrimAll(parts)[k])
  {
    forall k | 0 <= k < |parts| ensures '|' !in Trim(parts[k]) {
      TrimKeepsNonSpace(parts[k], '|');
    }
  }

  /** No cell holds `|`, and no cell starts or ends with white space. */
  lemma ParseTableCellsClean(line: string)
    ensures forall k :: 0 <= k < |ParseTableCells(line)| ==> '|' !in ParseTableCells(line)[k]
    ensures forall k :: 0 <= k < |ParseTableCells(line)| ==> Trimmed(ParseTableCells(line)[k])
  {
    SplitPiecesNoSep(StripPipes(Trim(line)), '|');
    TrimAllClean(Split(StripPipes(Trim(line)), '|'));
  }

  /** The selection keeps exactly the lines the test does not reject: each kept line is one
      of the input lines and passes, and every input line that passes is kept. For the table,
      every body row comes from a non-separator line and no separator yields a body row. */
  lemma {:induction false} KeptFilter(lines: seq<string>, skip: string -> bool)
    ensures forall l :: l in Kept(lines, skip) ==> l in lines && !skip(l)
    ensures forall l :: l in lines && !skip(l) ==> l in Kept(lines, skip)
  {
    if |lines| > 0 {
      KeptFilter(lines[1..], skip);
      assert lines == [lines[0]] + lines[1..];
    }
  }

  /** The selection maps a single line to itself or to nothing and distributes over
      concatenation, so the kept lines keep their order and every repetition. */
  lemma {:induction false} KeptAppend(a: seq<string>, b: seq<string>, skip: string -> bool)
    ensures Kept(a + b, skip) == Kept(a, skip) + Kept(b, skip)
    ensures |a| == 1 ==> Kept(a, skip) == if skip(a[0]) then [] else a
  {
    if |a| > 0 {
      assert (a + b)[1..] == a[1..] + b;
      KeptAppend(a[1..], b, skip);
    } else {
      assert a + b == b;
    }
  }

  lemma CellsOfAppend(a: seq<string>, b: seq<string>, parse: string -> seq<string>)
    ensures CellsOf(a + b, parse) == CellsOf(a, parse) + CellsOf(b, parse)
  {
  }

  lemma {:induction false} RowsHtmlAppend(a: seq<seq<string>>, b: seq<seq<string>>, inline: string -> string)
    ensures RowsHtml(a + b, inline) == RowsHtml(a, inline) + RowsHtml(b, inline)
  {
    if |a| > 0 {
      assert (a + b)[1..] == a[1..] + b;
      RowsHtmlAppend(a[1..], b, inline);
    } else {
      assert a + b == b;
    }
  }

  /** The rows emitted for the lines before `j` and for line `j`. */
  lemma BodyRowsStep(lines: seq<string>, start: nat, j: nat, skip: string -> bool,
                     parse: string -> seq<string>, inline: string -> string)
    requires start <= j < |lines|
    ensures RowsHtml(CellsOf(Kept(lines[start..j + 1], skip), parse), inline)
         == RowsHtml(CellsOf(Kept(lines[start..j], skip), parse), inline)
            + (if skip(lines[j]) then "" else RowHtml(parse(lines[j]), inline))
  {
    assert lines[start..j + 1] == lines[start..j] + [lines[j]];
    KeptAppend(lines[start..j], [lines[j]], skip);
    KeptAppend([lines[j]], [], skip);
    RowsOfAppend(Kept(lines[start..j], skip), Kept([lines[j]], skip), parse, inline);
  }

  /** Appending at most one line appends at most its row. */
  lemma RowsOfAppend(ls: seq<string>, extra: seq<string>, parse: string -> seq<string>, inline: string -> string)
    requires |extra| <= 1
    ensures RowsHtml(CellsOf(ls + extra, parse), inline)
         == RowsHtml(CellsOf(ls, parse), inline) + (if |extra| == 0 then "" else RowHtml(parse(extra[0]), inline))
  {
    CellsOfAppend(ls, extra, parse);
    RowsHtmlAppend(CellsOf(ls, parse), CellsOf(extra, parse), inline);
    if |extra| == 1 {
      assert CellsOf(extra, parse) == [parse(extra[0])];
      assert RowsHtml(CellsOf(extra, parse), inline) == RowHtml(parse(extra[0]), inline) + RowsHtml([], inline);
    } else {
      assert ls + extra == ls;
    }
  }

  /** `_renderTable` as its loops are written: the header cells when the second line is a
      separator, then, from the line after the separator (or from the first line), every line
      that is not a separator as one body row, a separator being skipped by `continue`. The
      result is exactly the table `TableOf` describes. */
  method RenderTableLoop(lines: seq<string>) returns (html: string)
    ensures html == RenderTable(lines)
  {
    if |lines| == 0 {
      return "";
    }
    var hasHeader := |lines| >= 2 && IsTableSeparator(lines[1]);
    var head := "";
    var start := 0;
    if hasHeader {
      head := HeadHtml(Some(ParseTableCells(lines[0])), Inline.RenderInline);
      start := 2;
    }
    var rows := BodyRowsLoop(lines, start, IsTableSeparator, ParseTableCells, Inline.RenderInline);
    html := TableFrame(head, rows);
    RenderTableFrame(lines, hasHeader, head, start);
  }

  /** The body loop of `_renderTable`: from `start` on, a row per line that `skip` does not
      reject, in order; a rejected line is skipped by `continue`. `RenderTableLoop` passes the
      separator test, the cell parser and the inline formatter. */
  method BodyRowsLoop(lines: seq<string>, start: nat, skip: string -> bool,
                      parse: string -> seq<string>, inline: string -> string) returns (rows: string)
    requires start <= |lines|
    ensures rows == RowsHtml(CellsOf(Kept(lines[start..], skip), parse), inline)
  {
    rows := "";
    var j := start;
    while j < |lines|
      invariant start <= j <= |lines|
      invariant rows == RowsHtml(CellsOf(Kept(lines[start..j], skip), parse), inline)
    {
      BodyRowsStep(lines, start, j, skip, parse, inline);
      if !skip(lines[j]) {
        rows := rows + RowHtml(parse(lines[j]), inline);
      }
      j := j + 1;
    }
    assert lines[start..j] == lines[start..];
  }

  /** A non-empty group of lines renders as the frame around the head, if any, and the rows of
      the non-separator lines from `start` on. */
  lemma RenderTableFrame(lines: seq<string>, hasHeader: bool, head: string, start: nat)
    requires |lines| > 0 && hasHeader == HasHeader(lines)
    requires start == if hasHeader then 2 else 0
    requires head == if hasHeader then HeadHtml(Some(ParseTableCells(lines[0])), Inline.RenderInline) else ""
    ensures start <= |lines|
    ensures RenderTable(lines)
         == TableFrame(head, RowsHtml(CellsOf(Kept(lines[start..], IsTableSeparator), ParseTableCells), Inline.RenderInline))
  {
    assert lines[0..] == lines;
  }

  lemma FrameShape(head: string, rows: string)
    requires head == "" || StartsWith(head, "<thead>")
    ensures StartsWith(TableFrame(head, rows), TableOpen + "<thead>") <==> head != ""
    ensures EndsWith(TableFrame(head, rows), "</tbody></table>")
  {
    var f := TableFrame(head, rows);
    var n := |TableOpen|;
    assert f == TableOpen + (head + "<tbody>" + rows + "</tbody></table>");
    if head == "" {
      assert f[n..n + 7] == "<tbody>";
    } else {
      assert f[n..n + 7] == head[..7];
    }
    assert f[|f| - 16..] == "</tbody></table>";
  }

  lemma HeadOpens(cells: seq<string>, inline: string -> string)
    ensures StartsWith(HeadHtml(Some(cells), inline), "<thead>")
  {
  }

  /** The rendered table holds a `<thead>` right after its opening tag exactly when the second
      line is a separator, and it always ends by closing the body and the table. */
  lemma RenderTableHeader(lines: seq<string>)
    requires |lines| > 0
    ensures HasHeader(lines) <==> StartsWith(RenderTable(lines), TableOpen + "<thead>")
    ensures EndsWith(RenderTable(lines), "</tbody></table>")
  {
    var hasHeader := HasHeader(lines);
    var start := if hasHeader then 2 else 0;
    var head := "";
    if hasHeader {
      head := HeadHtml(Some(ParseTableCells(lines[0])), Inline.RenderInline);
      HeadOpens(ParseTableCells(lines[0]), Inline.RenderInline);
    }
    RenderTableFrame(lines, hasHeader, head, start);
    FrameShape(head, RowsHtml(CellsOf(BodyLines(lines[start..]), ParseTableCells), Inline.RenderInline));
  }
}
