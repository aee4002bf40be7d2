/** The symbol tables, as the package receives them from its JSON data files.

    A JSON object becomes a Python dict whose iteration order is the file
    order. Both are modelled as association lists, and a lookup reads the
    first entry with the key. A dict keeps one entry per key, so the two
    readings agree when the keys are unique (`FindUnique`). */
module Tables {
  import opened Wrappers
  import opened Text

  /** One language's table: (character, Morse code) pairs in file order, or,
      for a decode table, whatever (key, value) pairs the data file holds. */
  type Table = seq<(string, string)>

  /** The whole data file: (language key, table) pairs in file order. */
  type Store = seq<(string, Table)>

  /** The `Language` literal type of the utilities module. */
  const Languages: set<string> :=
    {"english", "spanish", "french", "russian", "ukrainian", "numbers", "special"}

  /** `d[key]` when `key in d`, else None. */
  function Find<V>(pairs: seq<(string, V)>, key: string): (r: Option<V>)
    ensures r.None? <==> forall i :: 0 <= i < |pairs| ==> pairs[i].0 != key
    ensures r.Some? ==> (key, r.value) in pairs
  {
    if pairs == [] then None
    else if pairs[0].0 == key then Some(pairs[0].1)
    else Find(pairs[1..], key)
  }

  /** The position `Find` reads. */
  function FindIndex<V>(pairs: seq<(string, V)>, key: string): (i: nat)
    requires Find(pairs, key).Some?
    ensures i < |pairs| && pairs[i] == (key, Find(pairs, key).value)
    ensures forall j :: 0 <= j < i ==> pairs[j].0 != key
  {
    if pairs[0].0 == key then 0 else 1 + FindIndex(pairs[1..], key)
  }

  /** No key occurs twice, as in a dict. */
  predicate UniqueKeys<V>(pairs: seq<(string, V)>) {
    forall i, j :: 0 <= i < j < |pairs| ==> pairs[i].0 != pairs[j].0
  }

  /** With unique keys, a lookup reads the one entry the key has, which is the
      value `d[key]` gives whatever entry of a duplicated key a dict keeps. */
  lemma {:induction false} FindUnique<V>(pairs: seq<(string, V)>, i: nat)
    requires UniqueKeys(pairs) && i < |pairs|
    ensures Find(pairs, pairs[i].0) == Some(pairs[i].1)
  {
    if i > 0 {
      assert pairs[0].0 != pairs[i].0;
      assert UniqueKeys(pairs[1..]) by {
        forall a, b | 0 <= a < b < |pairs| - 1 ensures pairs[1..][a].0 != pairs[1..][b].0 {
          assert pairs[1..][a] == pairs[a + 1] && pairs[1..][b] == pairs[b + 1];
        }
      }
      FindUnique(pairs[1..], i - 1);
      assert pairs[1..][i - 1] == pairs[i];
    }
  }

  /** The data file holds the two tables every lookup chain falls back on. */
  predicate HasFallbacks(store: Store) {
    Find(store, "numbers").Some? && Find(store, "special").Some?
  }

  /** Applies f to every table of the store, keeping keys and order. */
  function MapTables(store: Store, f: Table -> Table): (r: Store)
    ensures |r| == |store|
    ensures forall i :: 0 <= i < |store| ==> r[i] == (store[i].0, f(store[i].1))
  {
    if store == [] then [] else [(store[0].0, f(store[0].1))] + MapTables(store[1..], f)
  }

  /** Looking a language up in the mapped store finds the mapped table. */
  lemma {:induction false} FindMapTables(store: Store, f: Table -> Table, key: string)
    ensures Find(MapTables(store, f), key) ==
            (if Find(store, key).Some? then Some(f(Find(store, key).value)) else None)
  {
    if store != [] && store[0].0 != key {
      FindMapTables(store[1..], f, key);
      assert MapTables(store, f)[1..] == MapTables(store[1..], f);
    }
  }

  /** A table code drawn with the caller's glyphs, as
      `code.replace('.', dot).replace('-', dash)` does it. */
  function Render(code: string, dot: string, dash: string): string {
    Replace(Replace(code, '.', dot), '-', dash)
  }

  /** The first of the tables, in order, that holds the key, and its value:
      the fallback chain written as a list of tables to probe. */
  function FirstHit(tables: seq<Table>, key: string): (r: Option<string>)
    ensures r.None? <==> forall i :: 0 <= i < |tables| ==> Find(tables[i], key).None?
    ensures r.Some? ==> exists i :: 0 <= i < |tables| && Find(tables[i], key) == r &&
                                   forall j :: 0 <= j < i ==> Find(tables[j], key).None?
  {
    if tables == [] then None
    else if Find(tables[0], key).Some? then Find(tables[0], key)
    else
      var r := FirstHit(tables[1..], key);
      assert r.Some? ==> exists i :: 0 < i < |tables| && Find(tables[i], key) == r &&
                                     forall j :: 0 <= j < i ==> Find(tables[j], key).None? by {
        if r.Some? {
          var k :| 0 <= k < |tables| - 1 && Find(tables[1..][k], key) == r &&
                   forall j :: 0 <= j < k ==> Find(tables[1..][j], key).None?;
          assert tables[1..][k] == tables[k + 1];
          forall j | 0 <= j < k + 1 ensures Find(tables[j], key).None? {
            if j > 0 { assert tables[1..][j - 1] == tables[j]; }
          }
        }
      }
      r
  }
}
