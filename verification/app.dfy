/**
 * The application object: the selected map file, the label that shows it,
 * the chosen output format, and the Go action that extracts the dictionary
 * and hands it to the chosen exporter. Dialogs, message boxes and widgets are
 * not modelled; the file chooser's answer and the file's lines are parameters.
 */
module ParserApp {
  import opened SymbolTables
  import opened MapFileParser
  import opened Exports

  /** Paths longer than this are shortened for display. */
  const MaxLength := 50

  /**
   * The label text for a selected path: the path itself when it fits in
   * fifty characters, otherwise "..." followed by its last forty-seven.
   */
  function DisplayPath(path: string): (shown: string)
    ensures |shown| == if |path| > MaxLength then MaxLength else |path|
    ensures |path| <= MaxLength ==> shown == path
    ensures |path| > MaxLength ==> shown[..3] == "..."
    ensures |path| > MaxLength ==> forall i :: 3 <= i < MaxLength ==> shown[i] == path[|path| - MaxLength + i]
  {
    if |path| > MaxLength then "..." + path[|path| - (MaxLength - 3)..] else path
  }

  /** What the Go action produces. */
  datatype Outcome =
    | NoFileSelected                              // no map file has been selected
    | NoFormatSelected                            // no output format has been selected
    | TextListing(content: string)                // the `_variables.txt` content
    | PythonClass(content: string)                // the `_variables.py` content
    | Spreadsheet(rows: seq<(string, string)>)    // the rows of the `_variables.xlsx` sheet
    | NoOutput                                    // an unknown format: nothing is written

  class MapFileParserApp {
    /** The selected map file; empty when none is selected. */
    var filePath: string
    /** The text of the label beside the Browse button. */
    var filePathLabel: string
    /** The output format of the radio buttons: "text", "python" or "excel". */
    var selectedOption: string

    /** A new window: no file, the placeholder label, the Python format chosen. */
    constructor()
      ensures filePath == "" && filePathLabel == "No file selected" && selectedOption == "python"
    {
      filePath := "";
      filePathLabel := "No file selected";
      selectedOption := "python";
    }

    /**
     * `browse_file`: the chooser's answer always replaces the selected path; a
     * cancelled choice (the empty path) leaves the label as it was.
     */
    method BrowseFile(chosen: string)
      modifies this
      ensures filePath == chosen
      ensures chosen == "" ==> filePathLabel == old(filePathLabel)
      ensures chosen != "" ==> filePathLabel == DisplayPath(chosen)
      ensures selectedOption == old(selectedOption)
    {
      filePath := chosen;
      if filePath != "" {
        filePathLabel := DisplayPath(filePath);
      }
    }

    /** A radio button sets the output format. */
    method SelectOption(option: string)
      modifies this
      ensures selectedOption == option
      ensures filePath == old(filePath) && filePathLabel == old(filePathLabel)
    {
      selectedOption := option;
    }

    /**
     * `parse_map_file`, given the lines of the selected file: without a file
     * or a format nothing is extracted; otherwise the dictionary is extracted
     * and rendered in the selected format, and an unknown format renders
     * nothing.
     */
    method ParseMapFile(lines: seq<string>) returns (out: Outcome)
      ensures filePath == "" <==> out == NoFileSelected
      ensures filePath != "" && selectedOption == "" <==> out == NoFormatSelected
      ensures filePath != "" && selectedOption == "text" ==> out == TextListing(TextFile(Extract(lines)))
      ensures filePath != "" && selectedOption == "python" ==> out == PythonClass(PythonStub(Extract(lines)))
      ensures filePath != "" && selectedOption == "excel" ==> out == Spreadsheet(Items(Extract(lines)))
      ensures filePath != "" && selectedOption !in {"", "text", "python", "excel"} ==> out == NoOutput
    {
      if filePath == "" {
        return NoFileSelected;
      }
      var format := selectedOption;
      if format == "" {
        return NoFormatSelected;
      }
      var t := ProcessMapFile(lines);
      if format == "text" {
        var content := SaveToTextFile(t);
        out := TextListing(content);
      } else if format == "python" {
        out := PythonClass(PythonStub(t));
      } else if format == "excel" {
        out := Spreadsheet(Items(t));
      } else {
        out := NoOutput;
      }
    }
  }
}
