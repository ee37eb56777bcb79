/** The module registry (`SemVerCache`) the manager writes with `register`
    and reads in `loadClass`. Its own source is not part of this model: it
    is kept abstract, as a table from module name to version to exports. */
module Registry {
  import opened Handles

  type Table = map<string, map<string, Exports>>

  /** The versions registered under `name` (none when the name is unknown). */
  function VersionsOf(t: Table, name: string): map<string, Exports>
  {
    if name in t then t[name] else map[]
  }

  /** The table after `set(name, version, exports)`: the exact
      (name, version) entry is written, last write wins, and every other
      entry, including other versions of the same name, stays. */
  function Insert(t: Table, name: string, version: string, exports: Exports): (t': Table)
    ensures name in t' && version in t'[name] && t'[name][version] == exports
    ensures forall n, v | n in t && v in t[n] && (n != name || v != version) ::
              n in t' && v in t'[n] && t'[n][v] == t[n][v]
    ensures forall n, v | n in t' && v in t'[n] ::
              (n == name && v == version) || (n in t && v in t[n])
  {
    t[name := VersionsOf(t, name)[version := exports]]
  }

  /** A module registered at a single version offers exactly that
      version's exports, so the `'*'` lookup has only one answer. */
  lemma SingleVersionOffered(t: Table, name: string, version: string, exports: Exports)
    requires VersionsOf(t, name) == map[]
    ensures Insert(t, name, version, exports)[name].Values == {exports}
  {
  }

  class SemVerCache {
    var entries: Table

    constructor()
      ensures entries == map[]
    {
      entries := map[];
    }

    /** Some version of `name` is registered. */
    predicate Has(name: string)
      reads this
    {
      name in entries && entries[name] != map[]
    }

    /** `mod` is the exports of one of the registered versions of `name`. */
    predicate Offers(name: string, mod: Exports)
      reads this
    {
      name in entries && mod in entries[name].Values
    }

    method Set(name: string, version: string, exports: Exports)
      modifies this
      ensures entries == Insert(old(entries), name, version, exports)
    {
      entries := Insert(entries, name, version, exports);
    }

    /** `get(name, '*')`: the exports of some registered version of `name`,
        or nothing when no version is registered. Which version is chosen
        is left open. */
    method Get(name: string) returns (mod: Option<Exports>)
      ensures mod.None? <==> !Has(name)
      ensures mod.Some? ==> Offers(name, mod.value)
    {
      if !Has(name) {
        return None;
      }
      var version :| version in entries[name];
      mod := Some(entries[name][version]);
    }
  }
}
