/**
 * `downloadCSV`: the rendered table (its optional header row and its body
 * rows, as cell texts) serialised line by line. Every cell is followed by a
 * comma, every line by a newline; commas inside body cells become spaces,
 * header cells are written as they are. There is no quoting.
 */
module CsvExport {
  import opened Wrappers
  import opened Text

  /** A body cell as written: each `,` replaced by a space. */
  function EscapeCell(cell: string): string {
    Replace(cell, ',', ' ')
  }

  function EscapeRow(row: seq<string>): seq<string> {
    seq(|row|, i requires 0 <= i < |row| => EscapeCell(row[i]))
  }

  function HeaderLine(cells: seq<string>): string {
    Terminated(cells, ',')
  }

  function BodyLine(row: seq<string>): string {
    Terminated(EscapeRow(row), ',')
  }

  /** The lines of the file, without their newlines: the header's if there is one, then one per body row. */
  function Lines(header: Option<seq<string>>, body: seq<seq<string>>): seq<string> {
    (if header.Some? then [HeaderLine(header.value)] else [])
      + seq(|body|, i requires 0 <= i < |body| => BodyLine(body[i]))
  }

  function CsvText(header: Option<seq<string>>, body: seq<seq<string>>): string {
    Terminated(Lines(header, body), '\n')
  }

  /** The header loop of `downloadCSV`: each header cell as it is, a comma after each, then a newline. */
  method AppendHeaderRow(prefix: string, cells: seq<string>) returns (csvData: string)
    ensures csvData == prefix + HeaderLine(cells) + "\n"
  {
    csvData := prefix;
    var i := 0;
    while i < |cells|
      invariant 0 <= i <= |cells|
      invariant csvData == prefix + Terminated(cells[..i], ',')
    {
      TerminatedSnoc(cells[..i], cells[i], ',');
      assert cells[..i + 1] == cells[..i] + [cells[i]];
      csvData := csvData + cells[i] + ",";
      i := i + 1;
    }
    assert cells[..|cells|] == cells;
    csvData := csvData + "\n";
  }

  /** The inner loop of `downloadCSV`: each body cell with its commas replaced, a comma after each, then a newline. */
  method AppendBodyRow(prefix: string, row: seq<string>) returns (csvData: string)
    ensures csvData == prefix + BodyLine(row) + "\n"
  {
    csvData := prefix;
    var j := 0;
    while j < |row|
      invariant 0 <= j <= |row|
      invariant csvData == prefix + Terminated(EscapeRow(row)[..j], ',')
    {
      var cellData := Replace(row[j], ',', ' ');
      assert EscapeRow(row)[..j + 1] == EscapeRow(row)[..j] + [cellData];
      TerminatedSnoc(EscapeRow(row)[..j], cellData, ',');
      csvData := csvData + cellData + ",";
      j := j + 1;
    }
    assert EscapeRow(row)[..|row|] == EscapeRow(row);
    csvData := csvData + "\n";
  }

  /** `downloadCSV`: the header row if the table has one, then every body row, appended to `csvData`. */
  method DownloadCsv(header: Option<seq<string>>, body: seq<seq<string>>) returns (csvData: string)
    ensures csvData == CsvText(header, body)
  {
    csvData := "";
    var lines: seq<string> := [];
    if header.Some? {
      csvData := AppendHeaderRow(csvData, header.value);
      lines := [HeaderLine(header.value)];
      TerminatedSnoc([], HeaderLine(header.value), '\n');
    }
    var r := 0;
    while r < |body|
      invariant 0 <= r <= |body|
      invariant lines == Lines(header, body[..r])
      invariant csvData == Terminated(lines, '\n')
    {
      TerminatedSnoc(lines, BodyLine(body[r]), '\n');
      csvData := AppendBodyRow(csvData, body[r]);
      LinesSnoc(header, body, r);
      lines := lines + [BodyLine(body[r])];
      r := r + 1;
    }
    assert body[..|body|] == body;
  }

  lemma LinesSnoc(header: Option<seq<string>>, body: seq<seq<string>>, r: nat)
    requires r < |body|
    ensures Lines(header, body[..r + 1]) == Lines(header, body[..r]) + [BodyLine(body[r])]
  {
    var h: seq<string> := if header.Some? then [HeaderLine(header.value)] else [];
    var a := seq(r, i requires 0 <= i < r => BodyLine(body[..r][i]));
    var b := seq(r + 1, i requires 0 <= i < r + 1 => BodyLine(body[..r + 1][i]));
    assert b == a + [BodyLine(body[r])];
  }

  /** Escaped cells hold no comma, and keep any newline they had out. */
  lemma EscapedCells(row: seq<string>)
    ensures forall i :: 0 <= i < |row| ==> ',' !in EscapeRow(row)[i]
    ensures (forall i :: 0 <= i < |row| ==> '\n' !in row[i]) ==>
      forall i :: 0 <= i < |row| ==> '\n' !in EscapeRow(row)[i]
  {
    forall i | 0 <= i < |row| ensures ',' !in EscapeRow(row)[i] {
      ReplaceRemoves(row[i], ',', ' ');
    }
  }

  /**
   * A body line holds exactly one comma per cell and splits back, on commas,
   * into the escaped cells followed by an empty piece.
   */
  lemma BodyLineCells(row: seq<string>)
    ensures Count(BodyLine(row), ',') == |row|
    ensures Split(BodyLine(row), ',') == EscapeRow(row) + [""]
  {
    EscapedCells(row);
    CountTerminated(EscapeRow(row), ',');
    SplitTerminated(EscapeRow(row), ',');
  }

  /** A header line is the header cells as they are, each followed by a comma. */
  lemma HeaderLineCells(cells: seq<string>)
    requires forall i :: 0 <= i < |cells| ==> ',' !in cells[i]
    ensures Count(HeaderLine(cells), ',') == |cells|
    ensures Split(HeaderLine(cells), ',') == cells + [""]
  {
    CountTerminated(cells, ',');
    SplitTerminated(cells, ',');
  }

  predicate NoNewlines(header: Option<seq<string>>, body: seq<seq<string>>) {
    && (header.Some? ==> forall j :: 0 <= j < |header.value| ==> '\n' !in header.value[j])
    && (forall i, j :: 0 <= i < |body| && 0 <= j < |body[i]| ==> '\n' !in body[i][j])
  }

  /**
   * When no cell holds a newline, the file splits on newlines into the header
   * line (if any) and one line per body row, in order, followed by an empty
   * piece; so it holds one newline per body row plus one for a header.
   * The page's rendered rows do not meet this condition (their Edit/Delete
   * cell holds newlines); see `NewlineInCellAddsLines`.
   */
  lemma CsvLines(header: Option<seq<string>>, body: seq<seq<string>>)
    requires NoNewlines(header, body)
    ensures Split(CsvText(header, body), '\n') == Lines(header, body) + [""]
    ensures Count(CsvText(header, body), '\n') == |body| + (if header.Some? then 1 else 0)
    ensures header.None? ==> Lines(header, body) == seq(|body|, i requires 0 <= i < |body| => BodyLine(body[i]))
  {
    var lines := Lines(header, body);
    forall k | 0 <= k < |lines| ensures '\n' !in lines[k] {
      if header.Some? && k == 0 {
        TerminatedAvoids(header.value, ',', '\n');
      } else {
        var i := if header.Some? then k - 1 else k;
        assert lines[k] == BodyLine(body[i]);
        EscapedCells(body[i]);
        TerminatedAvoids(EscapeRow(body[i]), ',', '\n');
      }
    }
    SplitTerminated(lines, '\n');
    CountTerminated(lines, '\n');
  }

  /**
   * A body cell holding a newline, as every rendered row's Edit/Delete cell
   * does, gives the file more newlines than it has lines: splitting it on
   * newlines no longer recovers one line per row.
   */
  lemma NewlineInCellAddsLines(header: Option<seq<string>>, body: seq<seq<string>>, i: nat, j: nat)
    requires i < |body| && j < |body[i]| && '\n' in body[i][j]
    ensures Count(CsvText(header, body), '\n') > |body| + (if header.Some? then 1 else 0)
  {
    var lines := Lines(header, body);
    var k := if header.Some? then i + 1 else i;
    assert lines[k] == BodyLine(body[i]);
    var p :| 0 <= p < |body[i][j]| && body[i][j][p] == '\n';
    var cells := EscapeRow(body[i]);
    assert cells[j][p] == '\n';
    CountPresent(cells[j], '\n');
    CountAllPart(cells, j, '\n');
    CountTerminatedAll(cells, ',', '\n');
    CountAllPart(lines, k, '\n');
    CountTerminatedAll(lines, '\n', '\n');
  }

  /** The example of a body row with cells "a,b" and "c": written as `a b,c,`. */
  lemma CommaInCellExample()
    ensures CsvText(None, [["a,b", "c"]]) == "a b,c,\n"
    ensures CsvText(Some(["a,b"]), []) == "a,b,\n"
  {
    var e := EscapeCell("a,b");
    assert e[0] == 'a' && e[1] == ' ' && e[2] == 'b';
    assert e == "a b";
    assert EscapeCell("c") == "c";
    assert EscapeRow(["a,b", "c"]) == ["a b", "c"];
  }
}
