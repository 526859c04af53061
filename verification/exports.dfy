/**
 * The two text serialisers over the extracted dictionary: the `_variables.txt`
 * listing, one `name: value` line per entry, and the `_variables.py` stub, a
 * class whose constructor assigns each entry as an attribute. Only the text
 * is modelled; choosing the output path and writing the file are not.
 */
module Exports {
  import opened Strings
  import opened SymbolTables

  /** The line written for one entry, without its newline. */
  function TextLine(name: string, value: string): string {
    name + ": " + value
  }

  /** The lines of the text listing, one per key in iteration order. */
  function TextLines(t: SymbolTable): (ls: seq<string>)
    requires t.Valid()
    ensures |ls| == |t.order|
  {
    seq(|t.order|, i requires 0 <= i < |t.order| => TextLine(t.order[i], t.values[t.order[i]]))
  }

  /** The whole text listing: every line followed by a newline. */
  function TextFile(t: SymbolTable): string
    requires t.Valid()
  {
    Terminated(TextLines(t), '\n')
  }

  /**
   * `save_to_text_file`: one write of `name: value` and a newline per entry,
   * in iteration order; `content` is what the writes leave in the file.
   */
  method SaveToTextFile(t: SymbolTable) returns (content: string)
    requires t.Valid()
    ensures content == TextFile(t)
  {
    content := "";
    var i := 0;
    while i < |t.order|
      invariant i <= |t.order|
      invariant content == Terminated(TextLines(t)[..i], '\n')
    {
      var name := t.order[i];
      TerminatedSnoc(TextLines(t)[..i], TextLines(t)[i], '\n');
      assert TextLines(t)[..i + 1] == TextLines(t)[..i] + [TextLines(t)[i]];
      content := content + TextLine(name, t.values[name]) + "\n";
      i := i + 1;
    }
    assert TextLines(t)[..i] == TextLines(t);
  }

  /** Appending a part appends it and its terminator. */
  lemma {:induction false} TerminatedSnoc(xs: seq<string>, x: string, c: char)
    ensures Terminated(xs + [x], c) == Terminated(xs, c) + x + [c]
  {
    if xs == [] {
      assert [x][1..] == [];
    } else {
      assert (xs + [x])[1..] == xs[1..] + [x];
      TerminatedSnoc(xs[1..], x, c);
    }
  }

  /**
   * Read back line by line, the text listing has exactly one line per entry,
   * `name: value` in iteration order, and nothing after the last newline.
   */
  lemma TextFileLines(t: SymbolTable)
    requires t.Valid() && NoNewlines(t)
    ensures Split(TextFile(t), '\n') == TextLines(t) + [""]
    ensures forall i :: 0 <= i < |t.order| ==>
      TextLines(t)[i] == t.order[i] + ": " + t.values[t.order[i]]
  {
    var ls := TextLines(t);
    forall i | 0 <= i < |ls| ensures '\n' !in ls[i] {
      assert t.order[i] in t.values;
      NoNewlineIn3(t.order[i], ": ", t.values[t.order[i]]);
    }
    SplitTerminated(ls, '\n');
  }

  /** Text assembled from newline-free pieces has no newline. */
  lemma NoNewlineIn3(a: string, b: string, c: string)
    requires '\n' !in a && '\n' !in b && '\n' !in c
    ensures '\n' !in a + b + c
  {
  }

  /** The constructor line that assigns one entry. */
  function StubLine(name: string, value: string): string {
    "        self." + name + " = '" + value + "'"
  }

  /** The assignment lines of the stub, one per key in iteration order. */
  function StubLines(t: SymbolTable): (ls: seq<string>)
    requires t.Valid()
    ensures |ls| == |t.order|
  {
    seq(|t.order|, i requires 0 <= i < |t.order| => StubLine(t.order[i], t.values[t.order[i]]))
  }

  /** The class line of the stub. */
  const ClassLine := "class MapVariables:"
  /** The constructor line of the stub. */
  const InitLine := "    def __init__(self):"

  /**
   * `generate_python_file`'s content: the header, the assignment lines joined
   * with newlines, and a final newline.
   */
  function PythonStub(t: SymbolTable): string
    requires t.Valid()
  {
    "\n" + ClassLine + "\n" + InitLine + "\n" + Join(StubLines(t), '\n') + "\n"
  }

  /**
   * Read back line by line, the stub is an empty line, the class line, the
   * constructor line, one assignment line per entry in iteration order (one
   * empty line when there are none), and nothing after the last newline.
   */
  lemma PythonStubLines(t: SymbolTable)
    requires t.Valid() && NoNewlines(t)
    ensures Split(PythonStub(t), '\n') ==
      ["", ClassLine, InitLine]
      + (if |t.order| == 0 then [""] else StubLines(t)) + [""]
    ensures forall i :: 0 <= i < |t.order| ==>
      StubLines(t)[i] == "        self." + t.order[i] + " = '" + t.values[t.order[i]] + "'"
  {
    var ls := StubLines(t);
    forall i | 0 <= i < |ls| ensures '\n' !in ls[i] {
      assert t.order[i] in t.values;
      var name, value := t.order[i], t.values[t.order[i]];
      NoNewlineIn3("        self." + name, " = '", value + "'");
      assert ls[i] == ("        self." + name) + " = '" + (value + "'");
    }
    var body := Join(ls, '\n');
    calc {
      Split(PythonStub(t), '\n');
      Split("\n" + ClassLine + "\n" + InitLine + "\n" + body + "\n", '\n');
      { HeaderHasNoNewline();
        ThreeLinesFirst(ClassLine, InitLine, body, '\n'); }
      ["", ClassLine, InitLine] + Split(body + "\n", '\n');
      { JoinedLines(ls, '\n'); }
      ["", ClassLine, InitLine] + ((if |ls| == 0 then [""] else ls) + [""]);
      ["", ClassLine, InitLine] + (if |ls| == 0 then [""] else ls) + [""];
    }
  }

  /** The class and constructor lines are single lines. */
  lemma HeaderHasNoNewline()
    ensures '\n' !in ClassLine && '\n' !in InitLine
  {
  }

  /** Joined parts followed by the separator split into the parts and an empty remainder. */
  lemma JoinedLines(xs: seq<string>, c: char)
    requires forall i :: 0 <= i < |xs| ==> c !in xs[i]
    ensures Split(Join(xs, c) + [c], c) == (if |xs| == 0 then [""] else xs) + [""]
  {
    if |xs| == 0 {
      SplitCons("", c, "");
      assert Join(xs, c) + [c] == "" + [c] + "";
    } else {
      JoinTerminated(xs, c);
      SplitTerminated(xs, c);
    }
  }

  /**
   * Text that opens with an empty line and two given lines, and ends with a
   * separator, splits into those three lines first.
   */
  lemma ThreeLinesFirst(l1: string, l2: string, body: string, c: char)
    requires c !in l1 && c !in l2
    ensures Split([c] + l1 + [c] + l2 + [c] + body + [c], c) == ["", l1, l2] + Split(body + [c], c)
  {
    var rest := body + [c];
    var r2 := l2 + [c] + rest;
    var r1 := l1 + [c] + r2;
    var r0 := [] + [c] + r1;
    assert [c] + l1 + [c] + l2 + [c] + body + [c] == r0;
    SplitCons(l2, c, rest);
    SplitCons(l1, c, r2);
    SplitCons([], c, r1);
    Prepend3("", l1, l2, Split(rest, c));
  }

  /** Prepending three elements one by one prepends them together. */
  lemma Prepend3<T>(a: T, b: T, d: T, tail: seq<T>)
    ensures [a] + ([b] + ([d] + tail)) == [a, b, d] + tail
  {
  }

  /** A non-empty join followed by the separator terminates every part. */
  lemma {:induction false} JoinTerminated(xs: seq<string>, c: char)
    requires |xs| >= 1
    ensures Join(xs, c) + [c] == Terminated(xs, c)
  {
    if |xs| == 1 {
      assert xs[1..] == [];
    } else {
      JoinTerminated(xs[1..], c);
    }
  }
}
