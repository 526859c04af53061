/**
 * The dictionary the parser fills: Python's dict from variable name to
 * address, which remembers the order in which each key was first inserted.
 */
module SymbolTables {

  /**
   * `order` lists the keys in first-insertion order (the order `items()`
   * yields them); `values` gives each key its current value.
   */
  datatype SymbolTable = SymbolTable(order: seq<string>, values: map<string, string>) {

    /** Every key is listed once, and exactly the keys are listed. */
    ghost predicate Valid() {
      && (forall i, j :: 0 <= i < j < |order| ==> order[i] != order[j])
      && (forall k :: k in values <==> k in order)
    }
  }

  /** The empty dictionary `{}`. */
  const Empty := SymbolTable([], map[])

  /**
   * `d[name] = address`: the value is replaced (last write wins) and a new key
   * goes to the end of the iteration order, an existing key keeps its place.
   */
  function Store(t: SymbolTable, name: string, address: string): (u: SymbolTable)
    requires t.Valid()
    ensures u.Valid()
    ensures u.values == t.values[name := address]
    ensures name in t.values ==> u.order == t.order
    ensures name !in t.values ==> u.order == t.order + [name]
  {
    if name in t.values then SymbolTable(t.order, t.values[name := address])
    else SymbolTable(t.order + [name], t.values[name := address])
  }

  /** `d.items()`: the (key, value) pairs in iteration order. */
  function Items(t: SymbolTable): (items: seq<(string, string)>)
    requires t.Valid()
    ensures |items| == |t.order|
  {
    seq(|t.order|, i requires 0 <= i < |t.order| => (t.order[i], t.values[t.order[i]]))
  }

  /**
   * The pairs listed are exactly the entries of the dictionary, each key
   * listed once, in the dictionary's iteration order.
   */
  lemma ItemsAreEntries(t: SymbolTable)
    requires t.Valid()
    ensures forall k, v :: (k, v) in Items(t) <==> k in t.values && t.values[k] == v
    ensures forall i :: 0 <= i < |Items(t)| ==> Items(t)[i].0 == t.order[i]
    ensures forall i, j :: 0 <= i < j < |Items(t)| ==> Items(t)[i].0 != Items(t)[j].0
  {
    var items := Items(t);
    forall k, v ensures (k, v) in items <==> k in t.values && t.values[k] == v {
      if k in t.values && t.values[k] == v {
        var i :| 0 <= i < |t.order| && t.order[i] == k;
        assert items[i] == (k, v);
      }
    }
  }

  /** No key and no value holds a newline, so each entry can be written on one line. */
  ghost predicate NoNewlines(t: SymbolTable) {
    forall k :: k in t.values ==> '\n' !in k && '\n' !in t.values[k]
  }
}
