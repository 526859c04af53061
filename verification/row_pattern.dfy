/**
 * The row pattern of the address-sorted symbol table,
 *   ^\|\s*([0-9a-fA-Fx]+)\s*\|\s*([^|]+)\s*\|
 * applied with an anchored match, written out as a dedicated matcher.
 *
 * Read as a regular expression with backtracking it means: the line starts
 * with `|`; the text up to the next `|` (the first cell) is whitespace, a run
 * of address characters (group 1), whitespace; the text up to the `|` after
 * that (the second cell) is not empty. Group 2 is the second cell without its
 * leading whitespace, except that a cell made only of whitespace leaves its
 * last character to group 2, which `[^|]+` needs at least one of.
 */
module RowPattern {
  import opened Wrappers
  import opened Strings

  /** The class `[0-9a-fA-Fx]`; note that `X` is not in it. */
  predicate IsAddressChar(c: char) {
    ('0' <= c <= '9') || ('a' <= c <= 'f') || ('A' <= c <= 'F') || c == 'x'
  }

  predicate AllAddressChars(s: string) {
    forall i :: 0 <= i < |s| ==> IsAddressChar(s[i])
  }

  /** The two capture groups of a successful match. */
  datatype RowMatch = RowMatch(address: string, group2: string)

  /**
   * What group 2 captures from a non-empty second cell: a non-empty suffix of
   * the cell that strips to the same name as the whole cell.
   */
  function Group2(cell: string): (g: string)
    requires cell != []
    ensures g != [] && |g| <= |cell|
    ensures g == cell[|cell| - |g|..]
    ensures '|' in g ==> '|' in cell
    ensures Strip(g) == Strip(cell)
  {
    var lead := LeadingSpaces(cell);
    if lead == |cell| then
      assert cell[..lead] == cell;
      cell[|cell| - 1..]
    else
      var g := cell[lead..];
      LeadingSpacesIs(g, 0);
      assert g[0..] == g;
      g
  }

  /** The anchored match of the row pattern against one line. */
  function MatchRow(line: string): (r: Option<RowMatch>)
    ensures r.Some? ==> |line| > 0 && line[0] == '|'
    ensures r.Some? ==> r.value.address != [] && AllAddressChars(r.value.address)
    ensures r.Some? ==> '|' !in r.value.group2
  {
    if |line| == 0 || line[0] != '|' then None
    else
      match IndexOf(line, '|', 1)
      case None => None
      case Some(p) => MatchCells(line[1..p], line[p + 1..])
  }

  /**
   * The match past the second pipe: `first` is the first cell and `after` the
   * text that follows the pipe closing it.
   */
  function MatchCells(first: string, after: string): (r: Option<RowMatch>)
    ensures r.Some? ==> r.value.address != [] && AllAddressChars(r.value.address)
    ensures r.Some? ==> '|' !in r.value.group2
  {
    var address := Strip(first);
    if address == [] || !AllAddressChars(address) then None
    else
      match IndexOf(after, '|', 0)
      case None => None
      case Some(q) =>
        if q == 0 then None
        else
          assert '|' !in after[..q];
          Some(RowMatch(address, Group2(after[..q])))
  }

  /**
   * The shape the pattern describes, stated on the pieces of the line:
   * `|`, whitespace, address, whitespace, `|`, a non-empty cell without `|`,
   * `|`, and anything after.
   */
  ghost predicate IsRow(line: string, lead: string, address: string, trail: string, cell: string, rest: string) {
    && line == "|" + (lead + address + trail) + "|" + (cell + "|" + rest)
    && AllSpace(lead) && AllSpace(trail)
    && address != [] && AllAddressChars(address)
    && cell != [] && '|' !in cell
  }

  /** Every line of the row shape matches, with the groups the shape names. */
  lemma MatchRowComplete(line: string, lead: string, address: string, trail: string, cell: string, rest: string)
    requires IsRow(line, lead, address, trail, cell, rest)
    ensures MatchRow(line) == Some(RowMatch(address, Group2(cell)))
  {
    var body := lead + address + trail;
    var p := 1 + |body|;
    var after := cell + "|" + rest;
    assert line == "|" + body + "|" + after;
    assert line[1..p] == body;
    assert line[p + 1..] == after;
    assert forall j :: 0 <= j < |body| ==> body[j] != '|' by {
      forall j | 0 <= j < |body| ensures body[j] != '|' {
        if j < |lead| {
          assert body[j] == lead[j];
        } else if j < |lead| + |address| {
          assert body[j] == address[j - |lead|];
        } else {
          assert body[j] == trail[j - |lead| - |address|];
        }
      }
    }
    IndexOfIs(line, '|', 1, p);
    MatchCellsComplete(lead, address, trail, cell, rest);
  }

  /** Past the second pipe of a row, the cells give the groups the shape names. */
  lemma MatchCellsComplete(lead: string, address: string, trail: string, cell: string, rest: string)
    requires AllSpace(lead) && AllSpace(trail)
    requires address != [] && AllAddressChars(address)
    requires cell != [] && '|' !in cell
    ensures MatchCells(lead + address + trail, cell + "|" + rest) == Some(RowMatch(address, Group2(cell)))
  {
    var after := cell + "|" + rest;
    StripPadded(lead, address, trail);
    assert after[..|cell|] == cell;
    IndexOfIs(after, '|', 0, |cell|);
  }

  /** Every line that matches has the row shape, with the groups it returned. */
  lemma MatchRowSound(line: string)
    requires MatchRow(line).Some?
    ensures exists lead, trail, cell, rest ::
      IsRow(line, lead, MatchRow(line).value.address, trail, cell, rest) && MatchRow(line).value.group2 == Group2(cell)
  {
    var p := MatchRowCells(line);
    var first, after := line[1..p], line[p + 1..];
    var q := MatchCellsCut(first, after);
    CellsFormRow(line, p, first, after, q);
  }

  /**
   * A line with pipes at 0 and `p`, a third pipe at `q` in the text `after`
   * the second, and a pipe-free non-empty cell between them, whose first cell
   * strips to an address, has the row shape.
   */
  lemma CellsFormRow(line: string, p: nat, first: string, after: string, q: nat)
    requires 0 < p < |line| && line[0] == '|' && line[p] == '|'
    requires first == line[1..p] && after == line[p + 1..]
    requires 0 < q < |after| && after[q] == '|' && '|' !in after[..q]
    requires Strip(first) != [] && AllAddressChars(Strip(first))
    ensures exists lead, trail, rest :: IsRow(line, lead, Strip(first), trail, after[..q], rest)
  {
    var cell, rest := after[..q], after[q + 1..];
    assert line == "|" + first + "|" + after by {
      RowPieces(line, first, after, p);
    }
    assert after == cell + "|" + rest by {
      CutAt(after, q);
    }
    PiecesFormRow(line, first, after, Strip(first), cell, rest);
  }

  /** A successful match is decided by the cells around the second pipe, at `p`. */
  lemma MatchRowCells(line: string) returns (p: nat)
    requires MatchRow(line).Some?
    ensures 0 < p < |line| && line[0] == '|' && line[p] == '|'
    ensures MatchRow(line) == MatchCells(line[1..p], line[p + 1..])
  {
    p := IndexOf(line, '|', 1).value;
  }

  /** A successful match past the second pipe ends at the third pipe, at `q`. */
  lemma MatchCellsCut(first: string, after: string) returns (q: nat)
    requires MatchCells(first, after).Some?
    ensures 0 < q < |after| && after[q] == '|' && '|' !in after[..q]
    ensures MatchCells(first, after) == Some(RowMatch(Strip(first), Group2(after[..q])))
  {
    q := IndexOf(after, '|', 0).value;
  }

  /**
   * The pieces a successful match finds: the first cell `first`, holding
   * `address`, and after its closing pipe a pipe-free `cell` closed by the
   * third pipe.
   */
  lemma PiecesFormRow(line: string, first: string, after: string, address: string, cell: string, rest: string)
    requires line == "|" + first + "|" + after && after == cell + "|" + rest
    requires address == Strip(first) && address != [] && AllAddressChars(address)
    requires cell != [] && '|' !in cell
    ensures exists lead, trail :: IsRow(line, lead, address, trail, cell, rest)
  {
    var a := LeadingSpaces(first);
    var lead := first[..a];
    var trail := first[a + |address|..];
    StripSplit(first);
    assert IsRow(line, lead, address, trail, cell, rest);
  }

  /** A sequence is what precedes index `q`, the element there, and what follows. */
  lemma CutAt(s: string, q: nat)
    requires q < |s|
    ensures s == s[..q] + [s[q]] + s[q + 1..]
  {
  }

  /** A line that starts with `|` and has `|` at `p` is put back together from its pieces. */
  lemma RowPieces(line: string, first: string, after: string, p: nat)
    requires 0 < p < |line| && line[0] == '|' && line[p] == '|'
    requires first == line[1..p] && after == line[p + 1..]
    ensures line == "|" + first + "|" + after
  {
    assert line == [line[0]] + line[1..p] + [line[p]] + line[p + 1..];
  }
}
