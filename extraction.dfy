/** The document extractor: the plain text an uploaded PDF or spreadsheet
    puts into the session, and the choice between the two by file name.
    The PDF library's page texts and the spreadsheet library's data rows
    (each cell already rendered as a string) are the inputs. */
module Extraction {
  import opened Text

  // ---------------------------------------------------------------------
  // PDF
  // ---------------------------------------------------------------------

  /** The text of a PDF: its page texts in page order, one newline between
      each two pages. */
  function PdfText(pages: seq<string>): string
  {
    Join("\n", pages)
  }

  /** A PDF without pages gives no text, and one page gives exactly its text. */
  lemma PdfTextShort(pages: seq<string>)
    ensures |pages| == 0 ==> PdfText(pages) == ""
    ensures |pages| == 1 ==> PdfText(pages) == pages[0]
  {
  }

  /** One more page adds a newline and that page's text at the end. */
  lemma PdfTextAddPage(pages: seq<string>, page: string)
    requires |pages| > 0
    ensures PdfText(pages + [page]) == PdfText(pages) + "\n" + page
  {
    JoinSnoc("\n", pages, page);
  }

  /** Page k's text stands at its offset in the PDF text; a newline follows it
      unless it is the last page, and after the last page the text ends. So
      the text is p1 + "\n" + ... + "\n" + pk with no separator before or after. */
  lemma PdfTextPageAt(pages: seq<string>, k: nat)
    requires k < |pages|
    ensures var o := PartOffset("\n", pages, k); var t := PdfText(pages);
      && o + |pages[k]| <= |t|
      && t[o..o + |pages[k]|] == pages[k]
      && (k + 1 < |pages| ==> o + |pages[k]| < |t| && t[o + |pages[k]|] == '\n')
      && (k + 1 == |pages| ==> o + |pages[k]| == |t|)
  {
    JoinSpans("\n", pages, k);
    var o := PartOffset("\n", pages, k);
    var t := PdfText(pages);
    if k + 1 < |pages| {
      assert t[o + |pages[k]|..o + |pages[k]| + 1][0] == t[o + |pages[k]|];
    }
  }

  /** The PDF text is as long as the pages plus one newline per gap. */
  lemma PdfTextLength(pages: seq<string>)
    requires |pages| > 0
    ensures |PdfText(pages)| == TotalLength(pages) + |pages| - 1
  {
    JoinLength("\n", pages);
  }

  /** A two-page PDF with pages "Hello" and "World". */
  lemma PdfTextTwoPages()
    ensures PdfText(["Hello", "World"]) == "Hello\nWorld"
  {
    assert ["Hello", "World"][1..] == ["World"];
  }

  // ---------------------------------------------------------------------
  // Spreadsheet
  // ---------------------------------------------------------------------

  /** One cell after cleaning: stripped of surrounding whitespace, and then
      replaced by "" if what is left is all whitespace. The second step never
      changes anything, because a stripped cell that is all whitespace is
      already empty. */
  function CleanCell(cell: string): (r: string)
    ensures r == Trim(cell)
  {
    var t := Trim(cell);
    TrimEmpty(t);
    TrimIdempotent(cell);
    if AllSpace(t) then "" else t
  }

  /** Every cell of a row cleaned, in column order. */
  function CleanRow(row: seq<string>): seq<string>
  {
    seq(|row|, k requires 0 <= k < |row| => CleanCell(row[k]))
  }

  /** The whole data frame cleaned cell by cell, as `fillna`, `applymap` and
      `replace` do before any row is looked at. */
  function CleanTable(rows: seq<seq<string>>): seq<seq<string>>
  {
    seq(|rows|, i requires 0 <= i < |rows| => CleanRow(rows[i]))
  }

  /** `any(field.strip() for field in row)`: some cell has something left
      after stripping. */
  predicate HasContent(row: seq<string>)
  {
    |row| > 0 && (Trim(row[0]) != "" || HasContent(row[1..]))
  }

  lemma {:induction false} HasContentIff(row: seq<string>)
    ensures HasContent(row) <==> exists k :: 0 <= k < |row| && Trim(row[k]) != ""
  {
    if |row| > 0 {
      HasContentIff(row[1..]);
      assert forall k :: 1 <= k < |row| ==> row[1..][k - 1] == row[k];
    }
  }

  /** The row of the uploaded sheet holds a character that is not whitespace. */
  predicate HasText(row: seq<string>)
  {
    exists k :: 0 <= k < |row| && !AllSpace(row[k])
  }

  /** A cleaned row passes the filter exactly when the original row has a
      cell with a character that is not whitespace. */
  lemma RowKeptIff(row: seq<string>)
    ensures HasContent(CleanRow(row)) <==> HasText(row)
  {
    var clean := CleanRow(row);
    HasContentIff(clean);
    forall k | 0 <= k < |row|
      ensures Trim(clean[k]) != "" <==> !AllSpace(row[k])
    {
      TrimIdempotent(row[k]);
      TrimEmpty(row[k]);
    }
  }

  /** The positions of the cleaned rows that pass the filter, in increasing order. */
  function KeptIndices(table: seq<seq<string>>): (r: seq<nat>)
    ensures forall k :: 0 <= k < |r| ==> r[k] < |table|
    ensures forall k, l :: 0 <= k < l < |r| ==> r[k] < r[l]
    ensures forall i :: 0 <= i < |table| ==> (i in r <==> HasContent(table[i]))
  {
    if table == [] then []
    else
      var n := |table| - 1;
      var front := KeptIndices(table[..n]);
      assert forall i :: 0 <= i < n ==> table[..n][i] == table[i];
      front + (if HasContent(table[n]) then [n] else [])
  }

  /** The generator of the join: for each cleaned row that passes the filter,
      in row order, its cells joined by "|". */
  function TableLines(table: seq<seq<string>>): seq<string>
  {
    var kept := KeptIndices(table);
    seq(|kept|, k requires 0 <= k < |kept| => Join("|", table[kept[k]]))
  }

  /** The lines of a spreadsheet. */
  function SheetLines(rows: seq<seq<string>>): seq<string>
  {
    TableLines(CleanTable(rows))
  }

  /** The text of a spreadsheet: its lines joined by newlines. */
  function SheetText(rows: seq<seq<string>>): string
  {
    Join("\n", SheetLines(rows))
  }

  /** The lines are, in row order, exactly the rows that hold some
      non-whitespace character, each as its cleaned cells in column order
      joined by "|". All-blank rows give no line. */
  lemma SheetLinesSpec(rows: seq<seq<string>>)
    ensures var idx := KeptIndices(CleanTable(rows)); var lines := SheetLines(rows);
      && |lines| == |idx|
      && (forall k :: 0 <= k < |idx| ==> idx[k] < |rows| && lines[k] == Join("|", CleanRow(rows[idx[k]])))
      && (forall k, l :: 0 <= k < l < |idx| ==> idx[k] < idx[l])
      && (forall i :: 0 <= i < |rows| ==> (i in idx <==> HasText(rows[i])))
  {
    var table := CleanTable(rows);
    forall i | 0 <= i < |rows|
      ensures HasContent(table[i]) <==> HasText(rows[i])
    {
      RowKeptIff(rows[i]);
    }
  }

  /** No cleaned cell of the sheet holds a newline or a "|". */
  predicate SeparatorFree(rows: seq<seq<string>>)
  {
    forall i, j :: 0 <= i < |rows| && 0 <= j < |rows[i]| ==>
      '\n' !in CleanCell(rows[i][j]) && '|' !in CleanCell(rows[i][j])
  }

  /** One line of a separator-free sheet holds no newline, and splitting it
      on "|" gives back the cleaned cells of its row. */
  lemma LineRoundTrip(rows: seq<seq<string>>, k: nat)
    requires SeparatorFree(rows)
    requires k < |SheetLines(rows)|
    ensures '\n' !in SheetLines(rows)[k]
    ensures Split('|', SheetLines(rows)[k]) == CleanRow(rows[KeptIndices(CleanTable(rows))[k]])
  {
    var idx := KeptIndices(CleanTable(rows));
    SheetLinesSpec(rows);
    var row := rows[idx[k]];
    var cells := CleanRow(row);
    assert forall j :: 0 <= j < |cells| ==> '\n' !in cells[j] && '|' !in cells[j];
    JoinAvoids('\n', "|", cells);
    assert "|" == ['|'];
    SplitOfJoin('|', cells);
  }

  /** When no cleaned cell holds a newline or a "|", the text can be taken
      apart again: splitting on newlines gives the lines, and splitting each
      line on "|" gives the cleaned cells of its row. */
  lemma SheetTextRoundTrip(rows: seq<seq<string>>)
    requires SheetLines(rows) != []
    requires SeparatorFree(rows)
    ensures Split('\n', SheetText(rows)) == SheetLines(rows)
    ensures forall k :: 0 <= k < |SheetLines(rows)| ==>
      Split('|', SheetLines(rows)[k]) == CleanRow(rows[KeptIndices(CleanTable(rows))[k]])
  {
    var lines := SheetLines(rows);
    forall k | 0 <= k < |lines|
      ensures '\n' !in lines[k]
      ensures Split('|', lines[k]) == CleanRow(rows[KeptIndices(CleanTable(rows))[k]])
    {
      LineRoundTrip(rows, k);
    }
    assert "\n" == ['\n'];
    SplitOfJoin('\n', lines);
  }

  // ---------------------------------------------------------------------
  // Choosing the extractor
  // ---------------------------------------------------------------------

  datatype FileKind = PdfFile | SpreadsheetFile | OtherFile

  /** `name.split('.')[-1].lower()`: the lower-cased text after the last
      dot, or the whole lower-cased name when it has no dot. */
  function Extension(name: string): string
  {
    Lower(Last(Split('.', name)))
  }

  /** Which extractor an upload goes to. */
  function Classify(name: string): FileKind
  {
    var ext := Extension(name);
    if ext == "pdf" then PdfFile
    else if ext == "xlsx" || ext == "xls" then SpreadsheetFile
    else OtherFile
  }

  /** The dispatch compares the text after the last dot with "pdf", and
      with "xlsx" and "xls", without regard to ASCII case. */
  lemma ClassifySpec(name: string)
    ensures Classify(name) == PdfFile <==> EqualIgnoringCase(Last(Split('.', name)), "pdf")
    ensures Classify(name) == SpreadsheetFile <==>
      EqualIgnoringCase(Last(Split('.', name)), "xlsx") || EqualIgnoringCase(Last(Split('.', name)), "xls")
  {
    var last := Last(Split('.', name));
    LowerEqualsIff(last, "pdf");
    LowerEqualsIff(last, "xlsx");
    LowerEqualsIff(last, "xls");
  }

  /** The extension of `stem.ext` is `ext` lower-cased, whatever dots the stem holds. */
  lemma ExtensionOf(stem: string, ext: string)
    requires '.' !in ext
    ensures Extension(stem + "." + ext) == Lower(ext)
  {
    var s := stem + "." + ext;
    LastPiece('.', s);
    var l := Last(Split('.', s));
    assert s[|s| - |ext| - 1] == '.' && s[|s| - |ext|..] == ext;
    assert '.' in s;
    assert s[|s| - |l|..] == l;
    TailAfterLastUnique('.', s, l, ext);
  }

  /** A name without a dot is its own extension. */
  lemma ExtensionWithoutDot(name: string)
    requires '.' !in name
    ensures Extension(name) == Lower(name)
  {
    SplitWithoutSeparator('.', name);
  }

  /** The extension is compared without regard to ASCII case. */
  lemma ClassifyUpperCasePdf()
    ensures Classify("Verbale.PDF") == PdfFile
  {
    ExtensionOf("Verbale", "PDF");
    assert "Verbale" + "." + "PDF" == "Verbale.PDF";
    assert Lower("PDF") == "pdf";
  }

  /** A plain PDF name. */
  lemma ClassifyPdf()
    ensures Classify("verbale.pdf") == PdfFile
  {
    ExtensionOf("verbale", "pdf");
    assert "verbale" + "." + "pdf" == "verbale.pdf";
    assert Lower("pdf") == "pdf";
  }

  /** Only the part after the last dot counts. */
  lemma ClassifyManyDots()
    ensures Classify("dati.2024.Xlsx") == SpreadsheetFile
  {
    ExtensionOf("dati.2024", "Xlsx");
    assert "dati.2024" + "." + "Xlsx" == "dati.2024.Xlsx";
    assert Lower("Xlsx") == "xlsx";
  }

  /** The older spreadsheet format goes to the same extractor. */
  lemma ClassifyXls()
    ensures Classify("archivio.xls") == SpreadsheetFile
  {
    ExtensionOf("archivio", "xls");
    assert "archivio" + "." + "xls" == "archivio.xls";
    assert Lower("xls") == "xls";
  }

  /** Any other extension is ignored. */
  lemma ClassifyText()
    ensures Classify("nota.txt") == OtherFile
  {
    ExtensionOf("nota", "txt");
    assert "nota" + "." + "txt" == "nota.txt";
    assert Lower("txt") == "txt";
  }

  /** A name without any dot is compared as a whole. */
  lemma ClassifyBareName()
    ensures Classify("pdf") == PdfFile
  {
    ExtensionWithoutDot("pdf");
    assert Lower("pdf") == "pdf";
  }

}
