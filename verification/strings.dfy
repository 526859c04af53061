/** Small option type shared by the other modules. */
module Wrappers {
  datatype Option<+T> = None | Some(value: T)
}

/**
 * The fixed string operations the model needs: Python's notion of whitespace
 * (shared by the `\s` class of a str pattern and by str.strip()), stripping,
 * character and substring search, str.join on a one-character separator as
 * the stub exporter uses it, and str.split, which the source never calls and
 * which serves only to state how the exported text reads back line by line.
 */
module Strings {
  import opened Wrappers

  /** The characters for which Python's str.isspace() holds. */
  predicate IsSpace(c: char) {
    || ('\t' <= c <= '\r')
    || ('\U{1C}' <= c <= ' ')
    || c == '\U{85}' || c == '\U{A0}' || c == '\U{1680}'
    || ('\U{2000}' <= c <= '\U{200A}')
    || c == '\U{2028}' || c == '\U{2029}'
    || c == '\U{202F}' || c == '\U{205F}' || c == '\U{3000}'
  }

  predicate AllSpace(s: string) {
    forall i :: 0 <= i < |s| ==> IsSpace(s[i])
  }

  /** Length of the longest all-whitespace prefix of `s`. */
  function LeadingSpaces(s: string): (n: nat)
    ensures n <= |s|
    ensures AllSpace(s[..n])
    ensures n < |s| ==> !IsSpace(s[n])
  {
    if |s| == 0 || !IsSpace(s[0]) then 0
    else
      var m := LeadingSpaces(s[1..]);
      assert s[..m + 1] == [s[0]] + s[1..][..m];
      m + 1
  }

  /** Length of the longest all-whitespace suffix of `s`. */
  function TrailingSpaces(s: string): (n: nat)
    ensures n <= |s|
    ensures AllSpace(s[|s| - n..])
    ensures n < |s| ==> !IsSpace(s[|s| - 1 - n])
  {
    if |s| == 0 || !IsSpace(s[|s| - 1]) then 0
    else
      var init := s[..|s| - 1];
      var m := TrailingSpaces(init);
      assert s[|s| - (m + 1)..] == init[|init| - m..] + [s[|s| - 1]];
      m + 1
  }

  /**
   * Python's str.strip() with no argument: `s` without its leading and
   * trailing whitespace. The result is the slice of `s` that starts after the
   * leading whitespace; what follows it is whitespace; and it neither starts
   * nor ends with whitespace.
   */
  function Strip(s: string): (r: string)
    ensures |r| <= |s|
    ensures LeadingSpaces(s) + |r| <= |s|
    ensures r == s[LeadingSpaces(s)..LeadingSpaces(s) + |r|]
    ensures AllSpace(s[LeadingSpaces(s) + |r|..])
    ensures r != [] ==> !IsSpace(r[0]) && !IsSpace(r[|r| - 1])
    ensures r == [] <==> AllSpace(s)
  {
    var a := LeadingSpaces(s);
    var rest := s[a..];
    var t := TrailingSpaces(rest);
    var r := rest[..|rest| - t];
    assert s[a + |r|..] == rest[|rest| - t..];
    assert r == [] ==> s == s[..a] + s[a + |r|..];
    assert r != [] ==> r[0] == s[a] && r[|r| - 1] == rest[|rest| - 1 - t];
    r
  }

  /** `s` is its leading whitespace, its stripped text and its trailing whitespace. */
  lemma StripSplit(s: string)
    ensures var a := LeadingSpaces(s); var r := Strip(s);
      && s == s[..a] + r + s[a + |r|..]
      && AllSpace(s[..a]) && AllSpace(s[a + |r|..])
  {
    var a := LeadingSpaces(s);
    var r := Strip(s);
    Cut3(s, a, a + |r|);
  }

  /** A sequence is its prefix, middle and suffix put back together. */
  lemma Cut3(s: string, i: nat, j: nat)
    requires i <= j <= |s|
    ensures s == s[..i] + s[i..j] + s[j..]
  {
  }

  /** Stripping only removes characters. */
  lemma StripIsSlice(s: string)
    ensures forall c :: c in Strip(s) ==> c in s
  {
    var a := LeadingSpaces(s);
    var r := Strip(s);
    forall c | c in r ensures c in s {
      var i :| 0 <= i < |r| && r[i] == c;
      assert s[a + i] == c;
    }
  }

  /** The leading-whitespace count is pinned down by its two defining facts. */
  lemma LeadingSpacesIs(s: string, k: nat)
    requires k < |s| && AllSpace(s[..k]) && !IsSpace(s[k])
    ensures LeadingSpaces(s) == k
  {
    var n := LeadingSpaces(s);
    assert forall i :: 0 <= i < k ==> s[..k][i] == s[i];
    assert forall i :: 0 <= i < n ==> s[..n][i] == s[i];
  }

  /** The trailing-whitespace count is pinned down by its two defining facts. */
  lemma TrailingSpacesIs(s: string, k: nat)
    requires k < |s| && AllSpace(s[|s| - k..]) && !IsSpace(s[|s| - 1 - k])
    ensures TrailingSpaces(s) == k
  {
    var n := TrailingSpaces(s);
    assert forall i :: |s| - k <= i < |s| ==> s[|s| - k..][i - (|s| - k)] == s[i];
    assert forall i :: |s| - n <= i < |s| ==> s[|s| - n..][i - (|s| - n)] == s[i];
  }

  /**
   * Stripping removes exactly the surrounding whitespace: a core that does not
   * start or end with whitespace is recovered from any padding around it.
   */
  lemma StripPadded(lead: string, core: string, trail: string)
    requires AllSpace(lead) && AllSpace(trail)
    requires core != [] && !IsSpace(core[0]) && !IsSpace(core[|core| - 1])
    ensures Strip(lead + core + trail) == core
  {
    var s := lead + core + trail;
    assert s[..|lead|] == lead;
    LeadingSpacesIs(s, |lead|);
    var rest := s[|lead|..];
    assert rest == core + trail;
    assert rest[|rest| - |trail|..] == trail;
    TrailingSpacesIs(rest, |trail|);
    assert rest[..|core|] == core;
  }

  /** The first index at or after `from` where `s` holds `c`, if any. */
  function IndexOf(s: string, c: char, from: nat): (r: Option<nat>)
    decreases |s| - from
    ensures r.Some? ==> from <= r.value < |s| && s[r.value] == c
    ensures r.Some? ==> forall j :: from <= j < r.value ==> s[j] != c
    ensures r.None? ==> forall j :: from <= j < |s| ==> s[j] != c
  {
    if from >= |s| then None
    else if s[from] == c then Some(from)
    else IndexOf(s, c, from + 1)
  }

  /** A found index is pinned down by its two defining facts. */
  lemma IndexOfIs(s: string, c: char, from: nat, k: nat)
    requires from <= k < |s| && s[k] == c
    requires forall j :: from <= j < k ==> s[j] != c
    ensures IndexOf(s, c, from) == Some(k)
  {
  }

  /** Whether `pat` occurs in `s` at index `i`. */
  predicate OccursAt(s: string, pat: string, i: nat) {
    i + |pat| <= |s| && s[i..i + |pat|] == pat
  }

  /** Substring search, as a pattern with no special characters searches. */
  function Contains(s: string, pat: string): (b: bool)
    ensures b <==> exists i: nat :: OccursAt(s, pat, i)
  {
    if |s| < |pat| then false
    else if s[..|pat|] == pat then
      assert OccursAt(s, pat, 0);
      true
    else
      OccursLater(s, pat);
      Contains(s[1..], pat)
  }

  /** Past a non-occurrence at 0, occurrences in `s` are those in `s[1..]`. */
  lemma OccursLater(s: string, pat: string)
    requires |pat| <= |s| && s[..|pat|] != pat
    ensures (exists i: nat :: OccursAt(s, pat, i)) <==> (exists i: nat :: OccursAt(s[1..], pat, i))
  {
    if i: nat :| OccursAt(s[1..], pat, i) {
      assert s[i + 1..i + 1 + |pat|] == s[1..][i..i + |pat|];
      assert OccursAt(s, pat, i + 1);
    }
    if i: nat :| OccursAt(s, pat, i) {
      assert i > 0;
      assert s[1..][i - 1..i - 1 + |pat|] == s[i..i + |pat|];
      assert OccursAt(s[1..], pat, i - 1);
    }
  }

  /** Python's `c.join(xs)` for a one-character separator. */
  function Join(xs: seq<string>, c: char): string
  {
    if |xs| == 0 then ""
    else if |xs| == 1 then xs[0]
    else xs[0] + [c] + Join(xs[1..], c)
  }

  /** The text of `xs` written one after the other, each followed by `c`. */
  function Terminated(xs: seq<string>, c: char): (s: string)
  {
    if |xs| == 0 then "" else xs[0] + [c] + Terminated(xs[1..], c)
  }

  /** Python's `s.split(c)` for a one-character separator. */
  function Split(s: string, c: char): (parts: seq<string>)
    decreases |s|
    ensures |parts| >= 1
    ensures forall i :: 0 <= i < |parts| ==> c !in parts[i]
  {
    match IndexOf(s, c, 0)
    case None => [s]
    case Some(i) =>
      var tail := Split(s[i + 1..], c);
      assert c !in s[..i];
      [s[..i]] + tail
  }

  /** Splitting at the first separator. */
  lemma SplitCons(a: string, c: char, b: string)
    requires c !in a
    ensures Split(a + [c] + b, c) == [a] + Split(b, c)
  {
    var s := a + [c] + b;
    IndexOfIs(s, c, 0, |a|);
    assert s[..|a|] == a;
    assert s[|a| + 1..] == b;
  }

  /** Splitting a join at the same separator gives back its parts. */
  lemma {:induction false} SplitJoin(xs: seq<string>, c: char)
    requires |xs| >= 1
    requires forall i :: 0 <= i < |xs| ==> c !in xs[i]
    ensures Split(Join(xs, c), c) == xs
  {
    if |xs| == 1 {
      assert IndexOf(xs[0], c, 0).None?;
    } else {
      SplitCons(xs[0], c, Join(xs[1..], c));
      SplitJoin(xs[1..], c);
    }
  }

  /**
   * Splitting text made of separator-terminated parts gives back the parts
   * followed by the empty remainder after the last separator.
   */
  lemma {:induction false} SplitTerminated(xs: seq<string>, c: char)
    requires forall i :: 0 <= i < |xs| ==> c !in xs[i]
    ensures Split(Terminated(xs, c), c) == xs + [""]
  {
    if |xs| > 0 {
      var tail := Terminated(xs[1..], c);
      calc {
        Split(Terminated(xs, c), c);
        Split(xs[0] + [c] + tail, c);
        { SplitCons(xs[0], c, tail); }
        [xs[0]] + Split(tail, c);
        { SplitTerminated(xs[1..], c); }
        [xs[0]] + (xs[1..] + [""]);
        xs + [""];
      }
    }
  }
}
