/** One employee record of the JSON export: string keys to string values, where a value may be JSON null. */
module RawRecord {
  import opened Wrappers

  type Record = map<string, Option<string>>

  /** The sentinel for a missing value. */
  const NA: string := "N/A"

  /**
   * `$data[key] ?? 'N/A'`: the record's value when the key is present and not
   * null, and the sentinel otherwise. An empty string is a value, not a default.
   */
  function Lookup(r: Record, key: string): (v: string)
    ensures key in r && r[key].Some? ==> v == r[key].value
    ensures key !in r || r[key].None? ==> v == NA
  {
    if key in r && r[key].Some? then r[key].value else NA
  }

  /** Two records agree on `key` when `??` gives the same value for it in both. */
  predicate AgreeOn(r1: Record, r2: Record, key: string) {
    Lookup(r1, key) == Lookup(r2, key)
  }

  /** Changing one key of a record leaves the lookup of every other key as it was. */
  lemma LookupOtherKey(r: Record, key: string, v: Option<string>, other: string)
    requires other != key
    ensures Lookup(r[key := v], other) == Lookup(r, other)
  {
  }
}
