/**
 * Ability randomization: `get_all_abilities` and `randomize_abilities`,
 * which rewrites the whole species info file without looking for markers.
 */
module Abilities {
  import opened Options
  import opened Text
  import opened Tokens
  import opened Catalog
  import opened Paths
  import opened Files

  const AbilityPrefix: string := "ABILITY_"
  const ProtectedAbilities: seq<string> := ["ABILITY_NONE", "ABILITY_WONDER_GUARD"]

  const AbilityHeaderPath: string := "include/constants/abilities.h"
  const AbilityDataPath: string := "src/data/pokemon/species_info.h"

  /** `replacement_logic` in `randomize_abilities`. */
  function AbilityStep(pool: seq<string>, choose: nat -> nat, t: string, n: nat): (string, nat)
    requires pool != []
  {
    if t in ProtectedAbilities then (t, n) else (Choice(pool, choose, n), n + 1)
  }

  function AbilityResolver(pool: seq<string>, choose: nat -> nat): Resolver
    requires pool != []
  {
    (t: string, n: nat) => AbilityStep(pool, choose, t, n)
  }

  /** A protected ability stays; any other becomes a member of the pool. */
  predicate AllowedAbility(pool: seq<string>, t: string, u: string) {
    if t in ProtectedAbilities then u == t else u in pool
  }

  function AbilityAllowed(pool: seq<string>): (string, string) -> bool {
    (t: string, u: string) => AllowedAbility(pool, t, u)
  }

  lemma AbilityResolverRespects(pool: seq<string>, choose: nat -> nat)
    requires pool != []
    ensures Respects(AbilityResolver(pool, choose), AbilityAllowed(pool))
  {
  }

  /** Conversely, every allowed replacement is the one some chooser produces. */
  lemma AbilityStepReaches(pool: seq<string>, t: string, u: string, n: nat)
    requires pool != [] && AllowedAbility(pool, t, u)
    ensures exists choose: nat -> nat :: AbilityStep(pool, choose, t, n).0 == u
  {
    if t in ProtectedAbilities {
      assert AbilityStep(pool, PickAt(0), t, n).0 == u;
    } else {
      var i := IndexOf(pool, u);
      ChoicePick(pool, i, n);
      assert AbilityStep(pool, PickAt(i), t, n).0 == u;
    }
  }

  /** With the catalog as the pool, a replaced ability is never a protected one. */
  lemma NeverDrawsProtected(lines: seq<string>, t: string, u: string)
    requires t !in ProtectedAbilities
    requires AllowedAbility(CatalogOf(lines, AbilityPrefix, ProtectedAbilities), t, u)
    ensures u !in ProtectedAbilities
  {
    CatalogMember(lines, AbilityPrefix, ProtectedAbilities, u);
  }

  /**
   * The ability phase of `__main__`: load the catalog from the abilities
   * header and, when it is non-empty and the data file exists, rewrite the
   * whole data file; nothing else changes.
   */
  method RandomizeAbilities(fs: FileSystem, root: string, choose: nat -> nat, n: nat)
    returns (fs': FileSystem, pool: seq<string>, n': nat)
    ensures pool == (var h := Get(fs, Join(root, AbilityHeaderPath));
                     if h.None? then [] else CatalogOf(SplitLines(h.value), AbilityPrefix, ProtectedAbilities))
    ensures fs'.Keys == fs.Keys
    ensures forall p :: p in fs && p != Join(root, AbilityDataPath) ==> fs'[p] == fs[p]
    ensures pool == [] ==> fs' == fs
    ensures pool != [] && Join(root, AbilityDataPath) in fs ==>
      Conforms(fs[Join(root, AbilityDataPath)], fs'[Join(root, AbilityDataPath)], AbilityPrefix, AbilityAllowed(pool))
  {
    fs', n' := fs, n;
    pool := LoadCatalog(Get(fs, Join(root, AbilityHeaderPath)), AbilityPrefix, ProtectedAbilities);
    if pool != [] {
      var path := Join(root, AbilityDataPath);
      var content := Get(fs, path);
      if content.Some? {
        var r := Substitute(content.value, AbilityPrefix, AbilityResolver(pool, choose), n);
        AbilityResolverRespects(pool, choose);
        SubstituteConforms(content.value, AbilityPrefix, AbilityResolver(pool, choose), AbilityAllowed(pool), n);
        fs', n' := fs[path := r.0], r.1;
      }
    }
  }
}
