/**
 * The older randomizer at the repository root: one species catalog, a
 * single-tier resolver, the same marker loop and the same file list.
 */
module Legacy {
  import opened Options
  import opened Text
  import opened Tokens
  import opened Regions
  import opened Names
  import opened Catalog
  import opened Paths
  import opened Files

  const ExcludedSpecies: seq<string> := ["SPECIES_NONE", "SPECIES_EGG"]
  const SpeciesHeaderPath: string := "include/constants/species.h"

  /** `replacement_logic`: an excluded species stays, any other token becomes a catalog member. */
  function LegacyStep(speciesList: seq<string>, choose: nat -> nat, t: string, n: nat): (string, nat)
    requires speciesList != []
  {
    if t in ExcludedSpecies then (t, n) else (Choice(speciesList, choose, n), n + 1)
  }

  function LegacyResolver(speciesList: seq<string>, choose: nat -> nat): Resolver
    requires speciesList != []
  {
    (t: string, n: nat) => LegacyStep(speciesList, choose, t, n)
  }

  predicate AllowedLegacy(speciesList: seq<string>, t: string, u: string) {
    if t in ExcludedSpecies then u == t else u in speciesList
  }

  function LegacyAllowed(speciesList: seq<string>): (string, string) -> bool {
    (t: string, u: string) => AllowedLegacy(speciesList, t, u)
  }

  lemma LegacyResolverRespects(speciesList: seq<string>, choose: nat -> nat)
    requires speciesList != []
    ensures Respects(LegacyResolver(speciesList, choose), LegacyAllowed(speciesList))
  {
  }

  /** Conversely, every allowed replacement is the one some chooser produces. */
  lemma LegacyStepReaches(speciesList: seq<string>, t: string, u: string, n: nat)
    requires speciesList != [] && AllowedLegacy(speciesList, t, u)
    ensures exists choose: nat -> nat :: LegacyStep(speciesList, choose, t, n).0 == u
  {
    if t in ExcludedSpecies {
      assert LegacyStep(speciesList, PickAt(0), t, n).0 == u;
    } else {
      var i := IndexOf(speciesList, u);
      ChoicePick(speciesList, i, n);
      assert LegacyStep(speciesList, PickAt(i), t, n).0 == u;
    }
  }

  /** With the catalog as the list, a replaced species is never `SPECIES_NONE` or `SPECIES_EGG`. */
  lemma NeverNoneOrEgg(lines: seq<string>, t: string, u: string)
    requires t !in ExcludedSpecies
    requires AllowedLegacy(CatalogOf(lines, SpeciesPrefix, ExcludedSpecies), t, u)
    ensures u != "SPECIES_NONE" && u != "SPECIES_EGG"
  {
    CatalogMember(lines, SpeciesPrefix, ExcludedSpecies, u);
  }

  /**
   * `__main__` of the older randomizer. The species header must exist: this
   * version does not catch its absence. With a non-empty catalog, every file
   * of the file list is rewritten.
   */
  method RunLegacy(fs: FileSystem, root: string, auto: seq<string>, choose: nat -> nat, n: nat)
    returns (fs': FileSystem, speciesList: seq<string>, n': nat)
    requires Join(root, SpeciesHeaderPath) in fs
    ensures speciesList == CatalogOf(SplitLines(fs[Join(root, SpeciesHeaderPath)]), SpeciesPrefix, ExcludedSpecies)
    ensures fs'.Keys == fs.Keys
    ensures speciesList == [] ==> fs' == fs
    ensures forall p :: p in fs && p !in SpeciesFileList(root, auto) ==> fs'[p] == fs[p]
    ensures speciesList != [] ==>
      forall p :: p in fs && p in SpeciesFileList(root, auto) ==>
        FileConforms(fs[p], fs'[p], SpeciesPrefix, LegacyAllowed(speciesList))
  {
    speciesList := LoadCatalog(Some(fs[Join(root, SpeciesHeaderPath)]), SpeciesPrefix, ExcludedSpecies);
    fs', n' := fs, n;
    if speciesList != [] {
      var files := SpeciesFileList(root, auto);
      SpeciesFileListCorrect(root, auto);
      SortedDistinct(files);
      LegacyResolverRespects(speciesList, choose);
      fs', n' := RewriteFiles(fs, files, SpeciesPrefix, LegacyResolver(speciesList, choose), LegacyAllowed(speciesList), n);
    }
  }
}
