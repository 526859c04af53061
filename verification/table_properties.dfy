/**
 * What the extractor's dictionary holds, stated on the lines it scans rather
 * than on how it is built: which keys appear, which value each keeps, in
 * which order the keys come, and which lines can contribute at all.
 */
module TableProperties {
  import opened Wrappers
  import opened Strings
  import opened RowPattern
  import opened SymbolTables
  import opened MapFileParser

  /** Contribution `i` of `es` is an entry named `name`. */
  ghost predicate Names(es: seq<Option<Entry>>, i: int, name: string) {
    0 <= i < |es| && es[i].Some? && es[i].value.name == name
  }

  /** The keys are exactly the names of the entries. */
  lemma {:induction false} FillKeys(es: seq<Option<Entry>>)
    ensures forall k :: k in Fill(es).values <==> exists i :: Names(es, i, k)
  {
    if es != [] {
      var p := es[..|es| - 1];
      FillKeys(p);
      forall k ensures k in Fill(es).values <==> exists i :: Names(es, i, k) {
        if k in Fill(es).values {
          if k in Fill(p).values {
            var i :| Names(p, i, k);
            assert Names(es, i, k);
          } else {
            assert Names(es, |p|, k);
          }
        }
        if i :| Names(es, i, k) {
          if i < |p| {
            assert Names(p, i, k);
          }
        }
      }
    }
  }

  /** A key's value is the address of the last entry that names it (last write wins). */
  lemma {:induction false} FillLastWins(es: seq<Option<Entry>>, i: nat)
    requires i < |es| && es[i].Some?
    requires forall j :: i < j < |es| ==> !Names(es, j, es[i].value.name)
    ensures es[i].value.name in Fill(es).values
    ensures Fill(es).values[es[i].value.name] == es[i].value.address
  {
    var p := es[..|es| - 1];
    if i < |p| {
      forall j | i < j < |p| ensures !Names(p, j, p[i].value.name) {
        assert !Names(es, j, es[i].value.name);
      }
      FillLastWins(p, i);
      assert !Names(es, |p|, es[i].value.name);
    }
  }

  /** Some contribution from index `s` up to (not including) `j` names `name`. */
  ghost predicate NamedBetween(cs: seq<Option<Entry>>, s: int, j: int, name: string) {
    exists i :: s <= i < j && Names(cs, i, name)
  }

  /** Every entry naming `later` is preceded by an entry naming `earlier`. */
  ghost predicate Precedes(es: seq<Option<Entry>>, earlier: string, later: string) {
    forall j :: Names(es, j, later) ==> NamedBetween(es, 0, j, earlier)
  }

  /**
   * Keys come in the order of their first entries: every entry naming a
   * later key is preceded by an entry naming each earlier key.
   */
  lemma {:induction false} FillOrder(es: seq<Option<Entry>>)
    ensures forall a, b :: 0 <= a < b < |Fill(es).order| ==> Precedes(es, Fill(es).order[a], Fill(es).order[b])
  {
    if es != [] {
      var p := es[..|es| - 1];
      FillOrder(p);
      FillKeys(p);
      forall a, b | 0 <= a < b < |Fill(es).order| ensures Precedes(es, Fill(es).order[a], Fill(es).order[b]) {
        FillOrderStep(es, a, b);
      }
    }
  }

  /** One more contribution keeps every pair of keys in the order of their first entries. */
  lemma FillOrderStep(es: seq<Option<Entry>>, a: nat, b: nat)
    requires es != []
    requires var p := es[..|es| - 1];
      forall a, b :: 0 <= a < b < |Fill(p).order| ==> Precedes(p, Fill(p).order[a], Fill(p).order[b])
    requires var p := es[..|es| - 1];
      forall k :: k in Fill(p).values <==> exists i :: Names(p, i, k)
    requires a < b < |Fill(es).order|
    ensures Precedes(es, Fill(es).order[a], Fill(es).order[b])
  {
    var p := es[..|es| - 1];
    var t, u := Fill(p), Fill(es);
    assert |u.order| <= |t.order| + 1;
    assert u.order[a] == t.order[a];
    assert u.order[a] in t.values;
    forall j | Names(es, j, u.order[b]) ensures NamedBetween(es, 0, j, u.order[a]) {
      if j < |p| {
        assert Names(p, j, u.order[b]);
        assert b < |t.order|;
        assert u.order[b] == t.order[b];
        assert Precedes(p, t.order[a], t.order[b]);
        var i :| 0 <= i < j && Names(p, i, t.order[a]);
        assert Names(es, i, u.order[a]);
      } else {
        var i :| Names(p, i, t.order[a]);
        assert Names(es, i, u.order[a]);
      }
    }
  }

  /** Names among `cs[s..e]` are the names in `cs` at indices `s` to `e - 1`. */
  lemma SliceNames(cs: seq<Option<Entry>>, s: nat, e: nat)
    requires s <= e <= |cs|
    ensures forall i, k :: Names(cs[s..e], i, k) <==> (0 <= i < e - s && Names(cs, s + i, k))
  {
    forall i, k ensures Names(cs[s..e], i, k) <==> (0 <= i < e - s && Names(cs, s + i, k)) {
      if 0 <= i < e - s {
        assert cs[s..e][i] == cs[s + i];
      }
    }
  }

  /** `FillKeys` for the contributions `cs[s..e]`, indexed as in `cs`. */
  lemma SpanKeys(cs: seq<Option<Entry>>, s: nat, e: nat)
    requires s <= e <= |cs|
    ensures forall k :: k in Fill(cs[s..e]).values <==> exists i :: s <= i < e && Names(cs, i, k)
  {
    FillKeys(cs[s..e]);
    SliceNames(cs, s, e);
    forall k ensures k in Fill(cs[s..e]).values <==> exists i :: s <= i < e && Names(cs, i, k) {
      if i :| s <= i < e && Names(cs, i, k) {
        assert Names(cs[s..e], i - s, k);
      }
    }
  }

  /** `FillLastWins` for the contributions `cs[s..e]`, indexed as in `cs`. */
  lemma SpanLastWins(cs: seq<Option<Entry>>, s: nat, e: nat, i: nat)
    requires s <= i < e <= |cs| && cs[i].Some?
    requires forall j :: i < j < e ==> !Names(cs, j, cs[i].value.name)
    ensures cs[i].value.name in Fill(cs[s..e]).values
    ensures Fill(cs[s..e]).values[cs[i].value.name] == cs[i].value.address
  {
    var es := cs[s..e];
    var name := cs[i].value.name;
    assert es[i - s] == cs[i];
    forall j | i - s < j < |es| ensures !Names(es, j, name) {
      assert es[j] == cs[s + j];
      assert !Names(cs, s + j, name);
    }
    FillLastWins(es, i - s);
  }

  /**
   * Every contribution in `cs[s..e]` naming a later key of `order` is
   * preceded, within `cs[s..e]`, by one naming each earlier key.
   */
  ghost predicate FirstsInOrder(cs: seq<Option<Entry>>, s: int, e: int, order: seq<string>) {
    forall a, b, j :: 0 <= a < b < |order| && s <= j < e && Names(cs, j, order[b]) ==> NamedBetween(cs, s, j, order[a])
  }

  /** `FillOrder` for the contributions `cs[s..e]`, indexed as in `cs`. */
  lemma SpanOrder(cs: seq<Option<Entry>>, s: nat, e: nat)
    requires s <= e <= |cs|
    ensures FirstsInOrder(cs, s, e, Fill(cs[s..e]).order)
  {
    var order := Fill(cs[s..e]).order;
    forall a, b, j | 0 <= a < b < |order| && s <= j < e && Names(cs, j, order[b])
      ensures NamedBetween(cs, s, j, order[a])
    {
      SpanOrderAt(cs, s, e, a, b, j);
    }
  }

  /** `SpanOrder` for one pair of keys and one row naming the later key. */
  lemma SpanOrderAt(cs: seq<Option<Entry>>, s: nat, e: nat, a: nat, b: nat, j: nat)
    requires s <= e <= |cs|
    requires a < b < |Fill(cs[s..e]).order| && s <= j < e && Names(cs, j, Fill(cs[s..e]).order[b])
    ensures NamedBetween(cs, s, j, Fill(cs[s..e]).order[a])
  {
    var es := cs[s..e];
    var t := Fill(es);
    FillOrder(es);
    assert es[j - s] == cs[j];
    assert Names(es, j - s, t.order[b]);
    assert Precedes(es, t.order[a], t.order[b]);
    var i :| 0 <= i < j - s && Names(es, i, t.order[a]);
    assert es[i] == cs[s + i];
    assert Names(cs, s + i, t.order[a]);
  }

  /** Line `i` is a table row whose stripped name is `name`. */
  ghost predicate RowAt(lines: seq<string>, i: int, name: string) {
    Names(Scan(lines), i, name)
  }

  /** The contribution scanned from line `i` is what `RowEntry` makes of it. */
  lemma ScanAt(lines: seq<string>, i: nat)
    requires i < |lines|
    ensures Scan(lines)[i] == RowEntry(lines[i])
    ensures RowEntry(lines[i]).Some? ==> RowAt(lines, i, RowEntry(lines[i]).value.name)
  {
  }

  /**
   * Line `i` lies from the table start line itself up to, but not including,
   * the closing rule (`start <= i < stop`).
   */
  ghost predicate InSpan(lines: seq<string>, i: int) {
    TableStart(lines) <= i < TableStop(lines, TableStart(lines))
  }

  /**
   * The extracted dictionary is the one filled from the contributions of the
   * lines from the table start up to the closing rule.
   */
  lemma ExtractIsSpan(lines: seq<string>)
    ensures var s, e := TableStart(lines), TableStop(lines, TableStart(lines));
      || (s <= e <= |lines| && Extract(lines) == Fill(Scan(lines)[s..e]))
      || (e < s && Extract(lines) == Empty)
  {
    var s := TableStart(lines);
    var e := TableStop(lines, s);
    if s <= e {
      assert TableRows(lines) == lines[s..e];
      ScanSlice(lines, s, e);
    } else {
      assert TableRows(lines) == [];
      assert Scan([]) == [];
    }
  }

  /** Scanning a slice of the lines gives the same slice of their contributions. */
  lemma ScanSlice(lines: seq<string>, s: nat, e: nat)
    requires s <= e <= |lines|
    ensures Scan(lines[s..e]) == Scan(lines)[s..e]
  {
    var rows := lines[s..e];
    forall k | 0 <= k < e - s ensures Scan(rows)[k] == Scan(lines)[s..e][k] {
      assert rows[k] == lines[s + k];
      ScanAt(rows, k);
      ScanAt(lines, s + k);
    }
  }

  /**
   * The keys are exactly the names of the matching rows from the table start
   * line itself up to, but not including, the closing rule; no other line
   * contributes.
   */
  lemma ExtractKeys(lines: seq<string>)
    ensures forall k :: k in Extract(lines).values <==> exists i :: InSpan(lines, i) && RowAt(lines, i, k)
  {
    var s, e := TableStart(lines), TableStop(lines, TableStart(lines));
    var cs := Scan(lines);
    ExtractIsSpan(lines);
    forall k ensures k in Extract(lines).values <==> exists i :: InSpan(lines, i) && RowAt(lines, i, k) {
      if s <= e {
        SpanKeys(cs, s, e);
        if k in Extract(lines).values {
          var i :| s <= i < e && Names(cs, i, k);
          assert InSpan(lines, i) && RowAt(lines, i, k);
        }
      } else {
        assert k !in Extract(lines).values;
        assert forall i :: !InSpan(lines, i);
      }
    }
  }

  /** Each key holds the padded address of the last row in the span that names it. */
  lemma ExtractLastWins(lines: seq<string>, i: nat, entry: Entry)
    requires InSpan(lines, i) && i < |lines| && RowEntry(lines[i]) == Some(entry)
    requires forall j :: i < j && InSpan(lines, j) ==> !RowAt(lines, j, entry.name)
    ensures entry.name in Extract(lines).values
    ensures Extract(lines).values[entry.name] == entry.address
  {
    var s, e := TableStart(lines), TableStop(lines, TableStart(lines));
    var cs := Scan(lines);
    ExtractIsSpan(lines);
    assert s <= i < e;
    ScanAt(lines, i);
    forall j | i < j < e ensures !Names(cs, j, entry.name) {
      assert InSpan(lines, j);
    }
    SpanLastWins(cs, s, e, i);
  }

  /**
   * Keys iterate in the order of their first rows: every row in the span
   * naming a later key comes after some row in the span naming each earlier
   * key.
   */
  lemma ExtractOrder(lines: seq<string>)
    ensures FirstsInOrder(Scan(lines), TableStart(lines), TableStop(lines, TableStart(lines)), Extract(lines).order)
  {
    var s, e := TableStart(lines), TableStop(lines, TableStart(lines));
    ExtractIsSpan(lines);
    if s <= e {
      SpanOrder(Scan(lines), s, e);
    }
  }

  /**
   * Without a closing rule at or after the table start, with a start past the
   * last line, or with the closing rule at the start itself, the dictionary is
   * empty.
   */
  lemma NoSpanNoEntries(lines: seq<string>)
    requires || TableStart(lines) >= |lines|
             || (forall j :: TableStart(lines) <= j < |lines| ==> !Contains(lines[j], StopMarker))
             || TableStop(lines, TableStart(lines)) <= TableStart(lines)
    ensures Extract(lines) == Empty
  {
    var s, e := TableStart(lines), TableStop(lines, TableStart(lines));
    TableStopIs(lines, s);
    ExtractIsSpan(lines);
    if s <= e {
      assert s == e;
      assert Scan(lines)[s..e] == [];
    }
  }

  /** Lines as `readlines()` returns them hold a newline at most at their end. */
  ghost predicate SingleLine(line: string) {
    forall j :: 0 <= j < |line| - 1 ==> line[j] != '\n'
  }

  /** The second cell of a row lies before the row's last character. */
  lemma CellBeforeEnd(line: string, lead: string, address: string, trail: string, cell: string, rest: string)
    requires IsRow(line, lead, address, trail, cell, rest)
    ensures forall c :: c in cell ==> exists j :: 0 <= j < |line| - 1 && line[j] == c
  {
    var off := 2 + |lead + address + trail|;
    forall c | c in cell ensures exists j :: 0 <= j < |line| - 1 && line[j] == c {
      var k :| 0 <= k < |cell| && cell[k] == c;
      assert line[off + k] == c;
    }
  }

  /** A row of a single line yields a name and an address without newlines. */
  lemma EntryHasNoNewline(line: string)
    requires SingleLine(line) && RowEntry(line).Some?
    ensures '\n' !in RowEntry(line).value.name && '\n' !in RowEntry(line).value.address
  {
    MatchRowSound(line);
    var m := MatchRow(line).value;
    var lead, trail, cell, rest :| IsRow(line, lead, m.address, trail, cell, rest);
    RowEntryOfRow(line, lead, m.address, trail, cell, rest);
    CellBeforeEnd(line, lead, m.address, trail, cell, rest);
    StripIsSlice(cell);
    var padded := PadAddress(m.address);
    assert '\n' !in padded by {
      forall j | 0 <= j < |padded| ensures padded[j] != '\n' {
        if j < |m.address| {
          assert padded[j] == m.address[j];
        }
      }
    }
  }

  /** Stored entries without newlines give a dictionary without newlines. */
  lemma {:induction false} FillHasNoNewlines(es: seq<Option<Entry>>)
    requires forall i :: 0 <= i < |es| && es[i].Some? ==> '\n' !in es[i].value.name && '\n' !in es[i].value.address
    ensures NoNewlines(Fill(es))
  {
    if es != [] {
      FillHasNoNewlines(es[..|es| - 1]);
    }
  }

  /** The dictionary extracted from a file's lines can be written one entry per line. */
  lemma ExtractHasNoNewlines(lines: seq<string>)
    requires forall i :: 0 <= i < |lines| ==> SingleLine(lines[i])
    ensures NoNewlines(Extract(lines))
  {
    var s, e := TableStart(lines), TableStop(lines, TableStart(lines));
    ExtractIsSpan(lines);
    if s <= e {
      var cs := Scan(lines);
      forall i | 0 <= i < |cs| && cs[i].Some?
        ensures '\n' !in cs[i].value.name && '\n' !in cs[i].value.address
      {
        ScanAt(lines, i);
        EntryHasNoNewline(lines[i]);
      }
      SpanHasNoNewlines(cs, s, e);
    }
  }

  /** Contributions without newlines give a dictionary without newlines. */
  lemma SpanHasNoNewlines(cs: seq<Option<Entry>>, s: nat, e: nat)
    requires s <= e <= |cs|
    requires forall i :: 0 <= i < |cs| && cs[i].Some? ==> '\n' !in cs[i].value.name && '\n' !in cs[i].value.address
    ensures NoNewlines(Fill(cs[s..e]))
  {
    var es := cs[s..e];
    forall i | 0 <= i < |es| && es[i].Some?
      ensures '\n' !in es[i].value.name && '\n' !in es[i].value.address
    {
      assert es[i] == cs[s + i];
    }
    FillHasNoNewlines(es);
  }
}
