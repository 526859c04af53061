/**
 * The map-table extractor: finds the address-sorted symbol table in the lines
 * of a linker map file and turns its rows into a dictionary from variable
 * name to address. Reading the file is not modelled; the extractor is given
 * its lines as `readlines()` returns them.
 */
module MapFileParser {
  import opened Wrappers
  import opened Strings
  import opened RowPattern
  import opened SymbolTables

  /** The text whose first occurrence announces the table. */
  const StartMarker := "sorted on address"
  /** The border rule `\+\-\-\-` that closes the table. */
  const StopMarker := "+---"
  /** Header lines between the announcing line and the first row. */
  const HeaderLines := 7
  /** Width addresses are padded to with trailing '0's. */
  const AddressWidth := 10

  /** One extracted row: the stripped name and the padded address. */
  datatype Entry = Entry(name: string, address: string)

  /**
   * `raw.ljust(10, '0')`: the address keeps all its characters and is
   * lengthened with '0's to at least ten; it is never truncated.
   */
  function PadAddress(raw: string): (r: string)
    ensures |r| == if |raw| < AddressWidth then AddressWidth else |raw|
    ensures r[..|raw|] == raw
    ensures forall i :: |raw| <= i < |r| ==> r[i] == '0'
  {
    if |raw| >= AddressWidth then raw
    else raw + seq(AddressWidth - |raw|, _ => '0')
  }

  /** What a line contributes to the dictionary, if it is a table row. */
  function RowEntry(line: string): (e: Option<Entry>)
    ensures e.Some? <==> MatchRow(line).Some?
    ensures e.Some? ==> '|' !in e.value.name
  {
    match MatchRow(line)
    case None => None
    case Some(m) =>
      StripIsSlice(m.group2);
      Some(Entry(Strip(m.group2), PadAddress(m.address)))
  }

  /**
   * A row of the table shape contributes its second cell, stripped, as the
   * name and its address padded to ten characters.
   */
  lemma RowEntryOfRow(line: string, lead: string, address: string, trail: string, cell: string, rest: string)
    requires IsRow(line, lead, address, trail, cell, rest)
    ensures RowEntry(line) == Some(Entry(Strip(cell), PadAddress(address)))
  {
    MatchRowComplete(line, lead, address, trail, cell, rest);
  }

  /** A line that does not have the table-row shape contributes nothing. */
  lemma RowEntryOfNonRow(line: string)
    requires forall lead, address, trail, cell, rest :: !IsRow(line, lead, address, trail, cell, rest)
    ensures RowEntry(line) == None
  {
    if MatchRow(line).Some? {
      MatchRowSound(line);
    }
  }

  /** A matched line contributes its second group, stripped, and its padded address. */
  lemma RowEntryOfMatch(line: string, m: RowMatch)
    requires MatchRow(line) == Some(m)
    ensures RowEntry(line) == Some(Entry(Strip(m.group2), PadAddress(m.address)))
  {
  }

  /** What each line of `rows` contributes, line by line. */
  function Scan(rows: seq<string>): (es: seq<Option<Entry>>)
  {
    seq(|rows|, i requires 0 <= i < |rows| => RowEntry(rows[i]))
  }

  /** The dictionary after the contributions `es` have been stored, in order. */
  function Fill(es: seq<Option<Entry>>): (t: SymbolTable)
    ensures t.Valid()
  {
    if es == [] then Empty
    else
      var t := Fill(es[..|es| - 1]);
      match es[|es| - 1]
      case None => t
      case Some(e) => Store(t, e.name, e.address)
  }

  /** Storing one more contribution: a row is stored, anything else is skipped. */
  lemma FillStep(es: seq<Option<Entry>>, k: nat)
    requires k < |es|
    ensures Fill(es[..k + 1]) == match es[k]
      case None => Fill(es[..k])
      case Some(e) => Store(Fill(es[..k]), e.name, e.address)
  {
    assert es[..k + 1][..k] == es[..k];
  }

  /** The first index at or after `from` whose line contains `pat`. */
  function FirstContaining(lines: seq<string>, pat: string, from: nat): (r: Option<nat>)
    decreases |lines| - from
    ensures r.Some? ==> from <= r.value < |lines|
  {
    if from >= |lines| then None
    else if Contains(lines[from], pat) then Some(from)
    else FirstContaining(lines, pat, from + 1)
  }

  /**
   * The index found is the first at or after `from` whose line contains
   * `pat`, and nothing is found exactly when no line from `from` on does.
   */
  lemma {:induction false} FirstContainingIs(lines: seq<string>, pat: string, from: nat)
    decreases |lines| - from
    ensures var r := FirstContaining(lines, pat, from);
      && (r.Some? ==> Contains(lines[r.value], pat))
      && (r.Some? ==> forall j :: from <= j < r.value ==> !Contains(lines[j], pat))
      && (r.None? ==> forall j :: from <= j < |lines| ==> !Contains(lines[j], pat))
  {
    if from < |lines| && !Contains(lines[from], pat) {
      FirstContainingIs(lines, pat, from + 1);
    }
  }

  /**
   * Index of the first table row: seven past the first line that contains
   * the start marker, later occurrences being ignored; 0 when no line does.
   */
  function TableStart(lines: seq<string>): (start: nat)
  {
    match FirstContaining(lines, StartMarker, 0)
    case None => 0
    case Some(i) => i + HeaderLines
  }

  /** `TableStart` characterised by the lines that contain the start marker. */
  lemma TableStartIs(lines: seq<string>)
    ensures var start := TableStart(lines);
      || (start == 0 && forall j :: 0 <= j < |lines| ==> !Contains(lines[j], StartMarker))
      || (&& HeaderLines <= start < |lines| + HeaderLines
          && Contains(lines[start - HeaderLines], StartMarker)
          && forall j :: 0 <= j < start - HeaderLines ==> !Contains(lines[j], StartMarker))
  {
    FirstContainingIs(lines, StartMarker, 0);
  }

  /**
   * Index of the line that closes the table: the first at or after `start`
   * that contains the stop marker; 0 when there is none.
   */
  function TableStop(lines: seq<string>, start: nat): (stop: nat)
    ensures stop <= |lines|
  {
    match FirstContaining(lines, StopMarker, start)
    case None => 0
    case Some(i) => i
  }

  /** `TableStop` characterised by the lines that contain the stop marker. */
  lemma TableStopIs(lines: seq<string>, start: nat)
    ensures var stop := TableStop(lines, start);
      || (stop == 0 && forall j :: start <= j < |lines| ==> !Contains(lines[j], StopMarker))
      || (&& start <= stop < |lines|
          && Contains(lines[stop], StopMarker)
          && forall j :: start <= j < stop ==> !Contains(lines[j], StopMarker))
  {
    FirstContainingIs(lines, StopMarker, start);
  }

  /**
   * The lines `lines[start:stop]` scanned for rows: the span from the table
   * start up to its closing line, and nothing when that span is inverted.
   */
  function TableRows(lines: seq<string>): seq<string>
  {
    var start := TableStart(lines);
    var stop := TableStop(lines, start);
    if start <= stop then lines[start..stop] else []
  }

  /** The dictionary the extractor returns for the lines of a map file. */
  function Extract(lines: seq<string>): (t: SymbolTable)
    ensures t.Valid()
  {
    Fill(Scan(TableRows(lines)))
  }

  /**
   * The extractor as the source runs it: a scan for the start marker, a scan
   * from there for the closing rule, and a pass over the lines between them
   * that stores each matching row.
   */
  method ProcessMapFile(lines: seq<string>) returns (t: SymbolTable)
    ensures t == Extract(lines)
  {
    var start := 0;
    var stop := 0;

    var i := 0;
    while i < |lines|
      invariant i <= |lines|
      invariant FirstContaining(lines, StartMarker, i) == FirstContaining(lines, StartMarker, 0)
    {
      if Contains(lines[i], StartMarker) {
        start := i + HeaderLines;
        break;
      }
      i := i + 1;
    }
    assert start == TableStart(lines);

    i := start;
    while i < |lines|
      invariant start <= i
      invariant FirstContaining(lines, StopMarker, i) == FirstContaining(lines, StopMarker, start)
    {
      if Contains(lines[i], StopMarker) {
        stop := i;
        break;
      }
      i := i + 1;
    }
    assert stop == TableStop(lines, start);

    var rows := if start <= stop then lines[start..stop] else [];
    t := StoreRows(rows);
  }

  /**
   * The pass over the table lines: each line that matches the row pattern
   * stores its entry, later rows overwriting earlier ones.
   */
  method StoreRows(rows: seq<string>) returns (t: SymbolTable)
    ensures t == Fill(Scan(rows))
  {
    ghost var es := Scan(rows);
    t := Empty;
    var k := 0;
    while k < |rows|
      invariant k <= |rows|
      invariant t == Fill(es[..k])
    {
      FillStep(es, k);
      t := StoreRow(t, rows[k]);
      k := k + 1;
    }
    assert es[..k] == es;
  }

  /**
   * One iteration of the pass: a line that matches the row pattern stores its
   * second group, stripped, under its address padded to ten characters; any
   * other line leaves the dictionary as it was.
   */
  method StoreRow(t: SymbolTable, line: string) returns (u: SymbolTable)
    requires t.Valid()
    ensures RowEntry(line).None? ==> u == t
    ensures RowEntry(line).Some? ==> u == Store(t, RowEntry(line).value.name, RowEntry(line).value.address)
  {
    var order, values := t.order, t.values;
    match MatchRow(line) {
      case None =>
      case Some(m) =>
        var address := PadAddress(m.address);
        var name := Strip(m.group2);
        RowEntryOfMatch(line, m);
        if name !in values {
          order := order + [name];
        }
        values := values[name := address];
    }
    u := SymbolTable(order, values);
  }
}
