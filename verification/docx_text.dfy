/** Flattening a Word document into plain text (`extract_text_from_docx`).
    The document is given abstractly, as python-docx presents it: the text of
    each paragraph in document order, then each table as its rows, and each
    row as the texts of its cells. */
module DocxText {
  import opened PyStr
  import opened Seqs

  /** The texts of one table row's cells, left to right. */
  type Row = seq<string>

  /** The rows of one table, top to bottom. */
  type Table = seq<Row>

  datatype Document = Document(paragraphs: seq<string>, tables: seq<Table>)

  /** `s.strip()` is empty: `s` holds nothing but white space. */
  predicate Blank(s: string)
  {
    Strip(s) == []
  }

  /** `s.strip()` is truthy: `s` holds something besides white space. */
  predicate NonBlank(s: string)
  {
    !Blank(s)
  }

  /** The lines the paragraphs contribute: the non-blank ones, unchanged. */
  function ParagraphLines(paragraphs: seq<string>): seq<string>
  {
    Filter(paragraphs, NonBlank)
  }

  /** A cell's text stripped, with its line feeds turned into spaces. */
  function CleanCell(cell: string): (r: string)
    ensures |r| == |Strip(cell)|
  {
    ReplaceNewlines(Strip(cell))
  }

  /** A cleaned cell is empty exactly when the cell is blank; otherwise it
      holds no line feed and neither starts nor ends with white space. */
  lemma CleanCellShape(cell: string)
    ensures CleanCell(cell) == [] <==> Blank(cell)
    ensures '\n' !in CleanCell(cell)
    ensures CleanCell(cell) != [] ==>
              !IsSpace(CleanCell(cell)[0]) && !IsSpace(CleanCell(cell)[|CleanCell(cell)| - 1])
  {
    var t := Strip(cell);
    var r := CleanCell(cell);
    forall k | 0 <= k < |r| ensures r[k] != '\n' && (t[k] != '\n' ==> r[k] == t[k]) {
      ReplaceNewlinesAt(t, k);
    }
  }

  /** The cleaned, non-empty cells of a row, in order. */
  function CleanCells(row: Row): seq<string>
  {
    if row == [] then []
    else (if CleanCell(row[0]) != [] then [CleanCell(row[0])] else []) + CleanCells(row[1..])
  }

  /** What one row contributes: the line joining its cleaned cells with
      `" | "`, or nothing when no cell has content. */
  function RowLine(row: Row): seq<string>
  {
    var cells := CleanCells(row);
    if cells == [] then [] else [Join(" | ", cells)]
  }

  /** The lines contributed by a sequence of rows, in order. */
  function RowsLines(rows: seq<Row>): seq<string>
  {
    if rows == [] then [] else RowLine(rows[0]) + RowsLines(rows[1..])
  }

  /** The lines contributed by the tables, table by table. */
  function TableLines(tables: seq<Table>): seq<string>
  {
    if tables == [] then [] else RowsLines(tables[0]) + TableLines(tables[1..])
  }

  /** All lines of the document: paragraphs first, then table rows. */
  function DocumentLines(doc: Document): seq<string>
  {
    ParagraphLines(doc.paragraphs) + TableLines(doc.tables)
  }

  /** The flattened text: the document's lines joined with line feeds. */
  function DocumentText(doc: Document): string
  {
    Join("\n", DocumentLines(doc))
  }

  /** A one-cell row keeps its cleaned cell when that is non-empty. */
  lemma CleanCellsSingle(cell: string)
    ensures CleanCells([cell]) == if CleanCell(cell) != [] then [CleanCell(cell)] else []
  {
    SingleTail(cell);
  }

  /** A one-row table contributes that row's line. */
  lemma RowsLinesSingle(row: Row)
    ensures RowsLines([row]) == RowLine(row)
  {
    SingleTail(row);
  }

  /** A single table contributes its rows' lines. */
  lemma TableLinesSingle(table: Table)
    ensures TableLines([table]) == RowsLines(table)
  {
    SingleTail(table);
  }

  lemma {:induction false} CleanCellsConcat(a: Row, b: Row)
    ensures CleanCells(a + b) == CleanCells(a) + CleanCells(b)
  {
    if a == [] {
      ConcatEmpty(a, b);
    } else {
      ConcatHeadTail(a, b);
      CleanCellsConcat(a[1..], b);
      var head := if CleanCell(a[0]) != [] then [CleanCell(a[0])] else [];
      Regroup3(head, CleanCells(a[1..]), CleanCells(b));
    }
  }

  lemma {:induction false} RowsLinesConcat(a: seq<Row>, b: seq<Row>)
    ensures RowsLines(a + b) == RowsLines(a) + RowsLines(b)
  {
    if a == [] {
      ConcatEmpty(a, b);
    } else {
      ConcatHeadTail(a, b);
      RowsLinesConcat(a[1..], b);
      Regroup3(RowLine(a[0]), RowsLines(a[1..]), RowsLines(b));
    }
  }

  lemma {:induction false} TableLinesConcat(a: seq<Table>, b: seq<Table>)
    ensures TableLines(a + b) == TableLines(a) + TableLines(b)
  {
    if a == [] {
      ConcatEmpty(a, b);
    } else {
      ConcatHeadTail(a, b);
      TableLinesConcat(a[1..], b);
      Regroup3(RowsLines(a[0]), TableLines(a[1..]), TableLines(b));
    }
  }

  /** A piece of text as a cleaned cell leaves it: not empty, free of line
      feeds, and neither starting nor ending with white space. */
  predicate Tidy(c: string)
  {
    c != [] && '\n' !in c && !IsSpace(c[0]) && !IsSpace(c[|c| - 1])
  }

  /** Every cleaned cell kept for a row is tidy. */
  lemma {:induction false} CleanCellsTidy(row: Row)
    ensures forall c :: c in CleanCells(row) ==> Tidy(c)
  {
    if row != [] {
      CleanCellsTidy(row[1..]);
      CleanCellShape(row[0]);
    }
  }

  /** A row keeps no cleaned cell exactly when every one of its cells is
      blank. */
  lemma {:induction false} CleanCellsNone(row: Row)
    ensures CleanCells(row) == [] <==> forall k :: 0 <= k < |row| ==> Blank(row[k])
  {
    if row != [] {
      var rest := row[1..];
      CleanCellsNone(rest);
      CleanCellShape(row[0]);
      if Blank(row[0]) && CleanCells(rest) == [] {
        forall k | 0 <= k < |row| ensures Blank(row[k]) {
          if k > 0 { assert row[k] == rest[k - 1]; }
        }
      }
      if forall k :: 0 <= k < |row| ==> Blank(row[k]) {
        assert Blank(row[0]);
        forall k | 0 <= k < |rest| ensures Blank(rest[k]) {
          assert rest[k] == row[k + 1];
        }
      }
    }
  }

  /** Python's `extract_text_from_docx`, over the abstract document: the
      non-blank paragraphs, then one line per table row with content, joined
      with line feeds. */
  method ExtractText(doc: Document) returns (text: string)
    ensures text == DocumentText(doc)
  {
    var fullText: seq<string> := [];
    var paragraphs := doc.paragraphs;
    for i := 0 to |paragraphs|
      invariant fullText == ParagraphLines(paragraphs[..i])
    {
      FilterConcat(paragraphs[..i], [paragraphs[i]], NonBlank);
      FilterSingle(paragraphs[i], NonBlank);
      TakeNext(paragraphs, i);
      if Strip(paragraphs[i]) != [] {
        fullText := fullText + [paragraphs[i]];
      }
    }
    TakeAll(paragraphs);
    var tables := doc.tables;
    for t := 0 to |tables|
      invariant fullText == ParagraphLines(paragraphs) + TableLines(tables[..t])
    {
      var table := tables[t];
      ghost var before := fullText;
      for r := 0 to |table|
        invariant fullText == before + RowsLines(table[..r])
      {
        var row := table[r];
        var rowText: seq<string> := [];
        for c := 0 to |row|
          invariant rowText == CleanCells(row[..c])
        {
          var cleanText := ReplaceNewlines(Strip(row[c]));
          CleanCellsConcat(row[..c], [row[c]]);
          CleanCellsSingle(row[c]);
          TakeNext(row, c);
          if cleanText != [] {
            rowText := rowText + [cleanText];
          }
        }
        TakeAll(row);
        RowsLinesConcat(table[..r], [row]);
        RowsLinesSingle(row);
        TakeNext(table, r);
        Regroup3(before, RowsLines(table[..r]), RowLine(row));
        if rowText != [] {
          fullText := fullText + [Join(" | ", rowText)];
        }
      }
      TakeAll(table);
      TableLinesConcat(tables[..t], [table]);
      TableLinesSingle(table);
      TakeNext(tables, t);
      Regroup3(ParagraphLines(paragraphs), TableLines(tables[..t]), RowsLines(table));
    }
    TakeAll(tables);
    text := Join("\n", fullText);
  }

  /** A paragraph contributes exactly one line, itself unchanged (not
      stripped), when it is not blank, and nothing otherwise; what comes
      before and after it is unaffected. */
  lemma ParagraphContribution(before: seq<string>, p: string, after: seq<string>)
    ensures ParagraphLines(before + [p] + after) ==
            ParagraphLines(before) + (if Blank(p) then [] else [p]) + ParagraphLines(after)
  {
    FilterConcat(before + [p], after, NonBlank);
    FilterConcat(before, [p], NonBlank);
    FilterSingle(p, NonBlank);
  }

  /** Joining tidy pieces with `" | "` gives a tidy line. */
  lemma JoinTidy(cells: seq<string>)
    requires cells != []
    requires forall k :: 0 <= k < |cells| ==> Tidy(cells[k])
    ensures Tidy(Join(" | ", cells))
  {
    var l := Join(" | ", cells);
    var first, last := cells[0], cells[|cells| - 1];
    assert Tidy(first) && Tidy(last);
    JoinShape(" | ", cells);
    JoinAvoids(" | ", cells, '\n');
    assert l[0] == first[0];
    assert l[|l| - 1] == last[|last| - 1];
  }

  /** A row contributes no line exactly when every cell is blank. */
  lemma RowSilent(row: Row)
    ensures RowLine(row) == [] <==> forall k :: 0 <= k < |row| ==> Blank(row[k])
  {
    CleanCellsNone(row);
  }

  /** The line a row contributes is its cleaned non-empty cells joined with
      `" | "`, and it is tidy. */
  lemma RowLineTidy(row: Row)
    ensures forall l :: l in RowLine(row) ==> l == Join(" | ", CleanCells(row)) && Tidy(l)
  {
    CleanCellsTidy(row);
    var cells := CleanCells(row);
    if cells != [] {
      forall k | 0 <= k < |cells| ensures Tidy(cells[k]) {
        assert cells[k] in cells;
      }
      JoinTidy(cells);
    }
  }

  /** A row contributes at most one line. It contributes none exactly when
      every cell is blank; otherwise the line is the cleaned non-empty cells
      joined with `" | "`, and it is tidy: not empty, free of line feeds,
      and neither starting nor ending with white space. */
  lemma RowContribution(row: Row)
    ensures |RowLine(row)| <= 1
    ensures RowLine(row) == [] <==> forall k :: 0 <= k < |row| ==> Blank(row[k])
    ensures forall l :: l in RowLine(row) ==> l == Join(" | ", CleanCells(row)) && Tidy(l)
  {
    RowSilent(row);
    RowLineTidy(row);
  }

  /** Rows contribute their lines in table and row order, each row at most
      one line, and nothing around a row is affected by it. */
  lemma RowOrder(tablesBefore: seq<Table>, rowsBefore: seq<Row>, row: Row,
                 rowsAfter: seq<Row>, tablesAfter: seq<Table>)
    ensures TableLines(tablesBefore + [rowsBefore + [row] + rowsAfter] + tablesAfter) ==
            TableLines(tablesBefore) + RowsLines(rowsBefore) + RowLine(row)
            + RowsLines(rowsAfter) + TableLines(tablesAfter)
  {
    var table := rowsBefore + [row] + rowsAfter;
    TableLinesConcat(tablesBefore + [table], tablesAfter);
    TableLinesConcat(tablesBefore, [table]);
    RowsLinesConcat(rowsBefore + [row], rowsAfter);
    RowsLinesConcat(rowsBefore, [row]);
    RowsLinesSingle(row);
    TableLinesSingle(table);
    Regroup5(TableLines(tablesBefore), RowsLines(rowsBefore), RowLine(row),
             RowsLines(rowsAfter), TableLines(tablesAfter));
  }

  /** No line of the document is empty, and no table line holds a line feed. */
  lemma {:induction false} LinesShape(doc: Document)
    ensures forall l :: l in DocumentLines(doc) ==> l != []
    ensures forall l :: l in TableLines(doc.tables) ==> '\n' !in l
  {
    TableLinesShape(doc.tables);
    forall l | l in ParagraphLines(doc.paragraphs) ensures l != [] {
      FilterMember(doc.paragraphs, NonBlank, l);
    }
  }

  lemma {:induction false} TableLinesShape(tables: seq<Table>)
    ensures forall l :: l in TableLines(tables) ==> l != [] && '\n' !in l
  {
    if tables != [] {
      RowsLinesShape(tables[0]);
      TableLinesShape(tables[1..]);
    }
  }

  lemma {:induction false} RowsLinesShape(rows: seq<Row>)
    ensures forall l :: l in RowsLines(rows) ==> l != [] && '\n' !in l
  {
    if rows != [] {
      RowLineTidy(rows[0]);
      RowsLinesShape(rows[1..]);
    }
  }

  /** The text never gains a separator at either end: it is empty exactly
      when there are no lines, and otherwise it starts with the first line,
      ends with the last, and is as long as the lines plus one line feed
      between each two of them. */
  lemma TextShape(doc: Document)
    ensures DocumentText(doc) == [] <==> DocumentLines(doc) == []
    ensures var lines := DocumentLines(doc);
            lines != [] ==>
              lines[0] <= DocumentText(doc)
              && EndsWith(DocumentText(doc), lines[|lines| - 1])
              && |DocumentText(doc)| == TotalLength(lines) + |lines| - 1
  {
    LinesShape(doc);
    var lines := DocumentLines(doc);
    assert forall k :: 0 <= k < |lines| ==> lines[k] in lines;
    JoinEmpty("\n", lines);
    if DocumentLines(doc) != [] {
      JoinShape("\n", DocumentLines(doc));
    }
  }

  /** When no paragraph contains a line break, splitting the text on line
      feeds gives back exactly the document's lines. */
  lemma TextSplitsIntoLines(doc: Document)
    requires forall p :: p in doc.paragraphs ==> '\n' !in p
    ensures DocumentLines(doc) != [] ==> Split(DocumentText(doc), '\n') == DocumentLines(doc)
  {
    LinesShape(doc);
    var lines := DocumentLines(doc);
    forall k | 0 <= k < |lines| ensures '\n' !in lines[k] {
      assert lines[k] in ParagraphLines(doc.paragraphs) || lines[k] in TableLines(doc.tables);
      FilterMember(doc.paragraphs, NonBlank, lines[k]);
    }
    if lines != [] {
      SplitJoin(lines, '\n');
    }
  }
}
