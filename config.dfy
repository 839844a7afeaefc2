/**
 * The constant tables of app/config.py: baud rates, the parity and stop-bit
 * tables with their inverses, the line endings, and the default settings
 * the panels fall back on. A Python dict built from a literal is an
 * association list here: `Lookup` is `dict.get(key, default)` and
 * `Inverse` is the comprehension `{v: k for k, v in table.items()}`.
 */
module Config {
  import opened Results

  const BaudRates: seq<int> :=
    [300, 1200, 2400, 4800, 9600, 19200, 38400, 57600, 115200, 230400, 460800, 921600]

  const Parities: seq<(string, string)> :=
    [("None", "N"), ("Even", "E"), ("Odd", "O"), ("Mark", "M"), ("Space", "S")]

  /** Stop bits, by the text shown in the combobox. */
  const StopBits: seq<(string, real)> := [("1", 1.0), ("1.5", 1.5), ("2", 2.0)]

  const LineEndings: seq<(string, seq<byte>)> :=
    [("None", []), ("CR", [13]), ("LF", [10]), ("CRLF", [13, 10])]

  // The entries of DEFAULTS that the modelled code reads.
  const DefaultPort: string := ""
  const DefaultBaud: int := 115200
  const DefaultParity: string := "N"
  const DefaultDataBits: int := 8
  const DefaultStopBits: real := 1.0
  const DefaultLineEnding: string := "CRLF"
  const DefaultHistorySize: nat := 100
  const DefaultTestDelayMs: int := 200

  /** No two entries share a key. */
  ghost predicate DistinctKeys<K, V>(table: seq<(K, V)>) {
    forall a, b :: 0 <= a < b < |table| ==> table[a].0 != table[b].0
  }

  /** No two entries share a value. */
  ghost predicate DistinctValues<K, V>(table: seq<(K, V)>) {
    forall a, b :: 0 <= a < b < |table| ==> table[a].1 != table[b].1
  }

  /**
   * `table.get(key, default)`. A dict literal keeps the last entry of a
   * repeated key, so the lookup scans from the end.
   */
  function Lookup<K(==), V>(table: seq<(K, V)>, key: K, default: V): (v: V)
    ensures (forall k :: 0 <= k < |table| ==> table[k].0 != key) ==> v == default
    ensures (exists k :: 0 <= k < |table| && table[k].0 == key) ==>
              exists k :: 0 <= k < |table| && table[k].0 == key && v == table[k].1
  {
    if table == [] then default
    else if table[|table| - 1].0 == key then table[|table| - 1].1
    else Lookup(table[..|table| - 1], key, default)
  }

  /** `{v: k for k, v in table.items()}`. */
  function Inverse<K, V>(table: seq<(K, V)>): (inv: seq<(V, K)>)
    ensures |inv| == |table|
    ensures forall k :: 0 <= k < |table| ==> inv[k] == (table[k].1, table[k].0)
  {
    if table == [] then [] else [(table[0].1, table[0].0)] + Inverse(table[1..])
  }

  /** In a table with distinct keys, the lookup of an entry's key yields that entry's value. */
  lemma {:induction false} LookupEntry<K, V>(table: seq<(K, V)>, k: nat, default: V)
    requires k < |table| && DistinctKeys(table)
    ensures Lookup(table, table[k].0, default) == table[k].1
    decreases |table|
  {
    if k < |table| - 1 {
      LookupEntry(table[..|table| - 1], k, default);
    }
  }

  /**
   * When keys and values are both distinct, the inverse table undoes the
   * table: looking a value up in the inverse gives back its key.
   */
  lemma InverseUndoesLookup<K, V>(table: seq<(K, V)>, k: nat, d1: V, d2: K)
    requires k < |table| && DistinctKeys(table) && DistinctValues(table)
    ensures Lookup(Inverse(table), Lookup(table, table[k].0, d1), d2) == table[k].0
  {
    LookupEntry(table, k, d1);
    LookupEntry(Inverse(table), k, d2);
  }

  /** The parity and stop-bit tables are one-to-one, so their inverses are exact. */
  lemma TablesAreOneToOne()
    ensures DistinctKeys(Parities) && DistinctValues(Parities)
    ensures DistinctKeys(StopBits) && DistinctValues(StopBits)
    ensures DistinctKeys(LineEndings)
  {
  }

  /** The default baud rate is one of the offered rates, and the default parity, stop bits and line ending are entries of their tables. */
  lemma DefaultsAreInTables()
    ensures DefaultBaud in BaudRates
    ensures Lookup(Inverse(Parities), DefaultParity, "") == "None"
    ensures Lookup(Inverse(StopBits), DefaultStopBits, "") == "1"
    ensures Lookup(LineEndings, DefaultLineEnding, []) == [13, 10]
  {
    TablesAreOneToOne();
    LookupEntry(Inverse(Parities), 0, "");
    LookupEntry(Inverse(StopBits), 0, "");
    LookupEntry(LineEndings, 3, []);
  }
}
