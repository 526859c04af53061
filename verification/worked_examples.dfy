/**
 * Worked inputs for the extractor: single rows, and a whole file whose table
 * is announced by its header line.
 */
module Examples {
  import opened Wrappers
  import opened Strings
  import opened RowPattern
  import opened SymbolTables
  import opened MapFileParser

  /** A pattern holding a character the text lacks does not occur in it. */
  lemma MissingCharNoMatch(s: string, pat: string, c: char)
    requires c in pat && c !in s
    ensures !Contains(s, pat)
  {
  }

  /** A short address is padded with '0's to ten characters. */
  lemma PadShortAddress()
    ensures PadAddress("1a2b") == "1a2b000000"
  {
    assert PadAddress("1a2b") == "1a2b" + "000000";
  }

  /** An address of exactly ten characters is kept as it is. */
  lemma PadLongAddress()
    ensures PadAddress("0x00001000") == "0x00001000"
  {
  }

  /** The row `| 0x00001000 | foo_var |` names `foo_var` at `0x00001000`. */
  lemma FooRow()
    ensures RowEntry("| 0x00001000 | foo_var |") == Some(Entry("foo_var", "0x00001000"))
  {
    FooRowShape();
    RowEntryOfRow("| 0x00001000 | foo_var |", " ", "0x00001000", " ", " foo_var ", "");
    FooName();
  }

  /** The pieces of the row `| 0x00001000 | foo_var |`. */
  lemma FooRowShape()
    ensures IsRow("| 0x00001000 | foo_var |", " ", "0x00001000", " ", " foo_var ", "")
  {
  }

  /** The padded second cell strips to the bare name. */
  lemma FooName()
    ensures Strip(FooCell) == FooVar
  {
    assert FooCell == Blank + FooVar + Blank;
    StripPadded(Blank, FooVar, Blank);
  }

  /** The second cell of the example row, and the name inside it. */
  const FooCell := " foo_var "
  const FooVar := "foo_var"
  const Blank := " "

  /** The row of the example table. */
  const FooLine := "| 0x00001000 | foo_var |"

  /** A header line, seven filler lines, one row and the closing rule. */
  const HeaderFile: seq<string> := ["sorted on address", "", "", "", "", "", "", "", FooLine, "+---"]

  /** The rows start seven lines past the header line, at the last filler line. */
  lemma HeaderFileStart()
    ensures TableStart(HeaderFile) == 7
  {
    assert OccursAt(HeaderFile[0], StartMarker, 0);
  }

  /** The closing rule is the first line from the start on that holds `+---`. */
  lemma HeaderFileStop()
    ensures TableStop(HeaderFile, 7) == 9
  {
    var lines := HeaderFile;
    assert OccursAt(lines[9], StopMarker, 0);
    MissingCharNoMatch(lines[8], StopMarker, '+');
    assert FirstContaining(lines, StopMarker, 9) == Some(9);
    assert FirstContaining(lines, StopMarker, 8) == Some(9);
    assert lines[7] == "" && !Contains(lines[7], StopMarker);
    assert FirstContaining(lines, StopMarker, 7) == Some(9);
  }

  /** The scanned span holds the last filler line, which is no row, and the row. */
  lemma HeaderFileScan()
    ensures Scan(HeaderFile[7..9]) == [None, Some(Entry("foo_var", "0x00001000"))]
  {
    assert HeaderFile[7..9] == [NoLine, FooLine];
    ScanPair(NoLine, FooLine);
    EmptyLineNoRow();
    FooRow();
  }

  /** The empty line. */
  const NoLine := ""

  /** The empty line is no row. */
  lemma EmptyLineNoRow()
    ensures RowEntry(NoLine) == None
  {
  }

  /** Two lines are scanned one by one. */
  lemma ScanPair(a: string, b: string)
    ensures Scan([a, b]) == [RowEntry(a), RowEntry(b)]
  {
  }

  /** The extractor returns the dictionary with the row's entry alone. */
  lemma HeaderFileExtract()
    ensures Extract(HeaderFile) == SymbolTable(["foo_var"], map["foo_var" := "0x00001000"])
  {
    HeaderFileStart();
    HeaderFileStop();
    assert TableRows(HeaderFile) == HeaderFile[7..9];
    HeaderFileScan();
    var es: seq<Option<Entry>> := [None, Some(Entry("foo_var", "0x00001000"))];
    assert es[..1] == [None] && [None][..0] == es[..0];
    assert Fill(es[..1]) == Empty;
    assert Fill(es) == Store(Empty, "foo_var", "0x00001000");
  }

  /** A row with a short address and a name padded with blanks. */
  const TrimLine := "| 1a2b |   my_var   |"

  /** The row gives the trimmed name and the padded address. */
  lemma TrimRow()
    ensures RowEntry(TrimLine) == Some(Entry("my_var", "1a2b000000"))
  {
    TrimRowShape();
    RowEntryOfRow(TrimLine, " ", "1a2b", " ", "   my_var   ", "");
    TrimName();
    PadShortAddress();
  }

  /** The pieces of the row `| 1a2b |   my_var   |`. */
  lemma TrimRowShape()
    ensures IsRow(TrimLine, " ", "1a2b", " ", "   my_var   ", "")
  {
  }

  /** The row's second cell strips to `my_var`. */
  lemma TrimName()
    ensures Strip(TrimCell) == TrimVar
  {
    assert TrimCell == Blank3 + TrimVar + Blank3;
    StripPadded(Blank3, TrimVar, Blank3);
  }

  /** The second cell of the trimmed row, and the name inside it. */
  const TrimCell := "   my_var   "
  const TrimVar := "my_var"
  const Blank3 := "   "

  /** A row whose second cell is only blanks. */
  const BlankLine := "| 10 |   |"

  /** A blank second cell still matches, and its stripped name is empty. */
  lemma BlankNameRow()
    ensures RowEntry(BlankLine) == Some(Entry("", "1000000000"))
  {
    BlankRowShape();
    RowEntryOfRow(BlankLine, " ", "10", " ", Blank3, "");
    BlankName();
    PadTwoDigits();
  }

  /** A cell of blanks strips to the empty name. */
  lemma BlankName()
    ensures Strip(Blank3) == ""
  {
    assert AllSpace(Blank3);
  }

  /** A two-digit address gains eight '0's. */
  lemma PadTwoDigits()
    ensures PadAddress("10") == "1000000000"
  {
    assert PadAddress("10") == "10" + "00000000";
  }

  /** The pieces of the row `| 10 |   |`. */
  lemma BlankRowShape()
    ensures IsRow(BlankLine, " ", "10", " ", Blank3, "")
  {
  }
}
