/**
 * Species randomization in the current randomizer: the species catalog,
 * the BST map and swap pools, the consistent starter map, the resolver
 * chain and the loop over the species files.
 */
module Species {
  import opened Options
  import opened Text
  import opened Tokens
  import opened Regions
  import opened Dicts
  import opened Names
  import opened Bst
  import opened Pools
  import opened Catalog
  import opened Paths
  import opened Files

  const BstSimilarityRange: int := 75

  const ProtectedSpecies: seq<string> := ["SPECIES_NONE", "SPECIES_EGG"]
  const OriginalStarters: seq<string> := ["SPECIES_BULBASAUR", "SPECIES_CHARMANDER", "SPECIES_SQUIRTLE"]

  const SpeciesHeaderPath: string := "include/constants/species.h"
  const BaseStatsHeaderPath: string := "src/data/pokemon/base_stats.h"

  /** `SPECIES_OLD_UNOWN_c` and `SPECIES_UNOWN_c` for the letters from `c` up to 'Z', in that order. */
  function UnownForms(c: char): (r: seq<string>)
    requires 'B' <= c <= '['
    ensures |r| == 2 * ('[' as int - c as int)
    decreases '[' as int - c as int
  {
    if c == '[' then []
    else ["SPECIES_OLD_UNOWN_" + [c], "SPECIES_UNOWN_" + [c]] + UnownForms((c as int + 1) as char)
  }

  /** `POOL_EXCLUSIONS`: no species, the egg and every Unown form. */
  const PoolExclusions: seq<string> :=
    ["SPECIES_NONE", "SPECIES_EGG", "SPECIES_UNOWN"] + UnownForms('B') + ["SPECIES_UNOWN_EMARK", "SPECIES_UNOWN_QMARK"]

  /** The exclusions hold the protected species, the plain Unown and all 54 other Unown forms. */
  lemma PoolExclusionsContents()
    ensures |PoolExclusions| == 55
    ensures forall p :: p in ProtectedSpecies ==> p in PoolExclusions
    ensures "SPECIES_UNOWN" in PoolExclusions && "SPECIES_UNOWN_EMARK" in PoolExclusions && "SPECIES_UNOWN_QMARK" in PoolExclusions
    ensures forall d :: 'B' <= d <= 'Z' ==>
      "SPECIES_OLD_UNOWN_" + [d] in PoolExclusions && "SPECIES_UNOWN_" + [d] in PoolExclusions
  {
    forall d | 'B' <= d <= 'Z'
      ensures "SPECIES_OLD_UNOWN_" + [d] in PoolExclusions && "SPECIES_UNOWN_" + [d] in PoolExclusions
    {
      UnownFormsListed('B', d);
    }
  }

  /** Every lettered Unown form is excluded from the pools. */
  lemma {:induction false} UnownFormsListed(c: char, d: char)
    requires 'B' <= c <= d <= 'Z'
    ensures "SPECIES_OLD_UNOWN_" + [d] in UnownForms(c) && "SPECIES_UNOWN_" + [d] in UnownForms(c)
    decreases d as int - c as int
  {
    if c != d {
      UnownFormsListed((c as int + 1) as char, d);
    }
  }

  // ---------------------------------------------------------------------
  // The resolver chain.

  /** The species state shared by every file: `starter_map`, `bst_swap_pools` (empty for `None`) and `fallback_pool`. */
  datatype SpeciesConfig = SpeciesConfig(starterMap: map<string, string>, pools: map<string, seq<string>>, fallback: seq<string>)

  /** `replacement_logic` in `randomize_species_in_file`. */
  function SpeciesStep(cfg: SpeciesConfig, choose: nat -> nat, t: string, n: nat): (string, nat) {
    if t in cfg.starterMap then (cfg.starterMap[t], n)
    else if t in ProtectedSpecies then (t, n)
    else if cfg.pools != map[] then
      if t in cfg.pools && cfg.pools[t] != [] then (Choice(cfg.pools[t], choose, n), n + 1) else (t, n)
    else if cfg.fallback != [] then (Choice(cfg.fallback, choose, n), n + 1)
    else (t, n)
  }

  function SpeciesResolver(cfg: SpeciesConfig, choose: nat -> nat): Resolver {
    (t: string, n: nat) => SpeciesStep(cfg, choose, t, n)
  }

  /**
   * The replacements the resolver may produce for `t`: a starter becomes its
   * fixed partner even when protected; a protected species stays; with
   * swap pools a species becomes a member of its own pool, or stays when it
   * has none or an empty one; without pools it becomes a member of the
   * fallback pool, or stays when that is empty.
   */
  predicate AllowedSpecies(cfg: SpeciesConfig, t: string, u: string) {
    if t in cfg.starterMap then u == cfg.starterMap[t]
    else if t in ProtectedSpecies then u == t
    else if |cfg.pools| > 0 then
      (t in cfg.pools && cfg.pools[t] != [] && u in cfg.pools[t])
      || ((t !in cfg.pools || cfg.pools[t] == []) && u == t)
    else (cfg.fallback != [] && u in cfg.fallback) || (cfg.fallback == [] && u == t)
  }

  function SpeciesAllowed(cfg: SpeciesConfig): (string, string) -> bool {
    (t: string, u: string) => AllowedSpecies(cfg, t, u)
  }

  /** Every answer of the resolver is allowed, and it makes at most one draw. */
  lemma SpeciesStepAllowed(cfg: SpeciesConfig, choose: nat -> nat, t: string, n: nat)
    ensures AllowedSpecies(cfg, t, SpeciesStep(cfg, choose, t, n).0)
    ensures SpeciesStep(cfg, choose, t, n).1 == n || SpeciesStep(cfg, choose, t, n).1 == n + 1
  {
    assert cfg.pools != map[] <==> |cfg.pools| > 0 by {
      if |cfg.pools| > 0 {
        var k :| k in cfg.pools;
      }
    }
  }

  lemma SpeciesResolverRespects(cfg: SpeciesConfig, choose: nat -> nat)
    ensures Respects(SpeciesResolver(cfg, choose), SpeciesAllowed(cfg))
  {
    forall t, m ensures SpeciesAllowed(cfg)(t, SpeciesResolver(cfg, choose)(t, m).0) {
      SpeciesStepAllowed(cfg, choose, t, m);
    }
  }

  /** Conversely, every allowed replacement is the one some chooser produces. */
  lemma SpeciesStepReaches(cfg: SpeciesConfig, t: string, u: string, n: nat)
    requires AllowedSpecies(cfg, t, u)
    ensures exists choose: nat -> nat :: SpeciesStep(cfg, choose, t, n).0 == u
  {
    if t in cfg.starterMap || t in ProtectedSpecies {
      assert SpeciesStep(cfg, PickAt(0), t, n).0 == u;
    } else if cfg.pools != map[] {
      if t in cfg.pools && cfg.pools[t] != [] && u in cfg.pools[t] {
        var i := IndexOf(cfg.pools[t], u);
        ChoicePick(cfg.pools[t], i, n);
        assert SpeciesStep(cfg, PickAt(i), t, n).0 == u;
      } else {
        assert SpeciesStep(cfg, PickAt(0), t, n).0 == u;
      }
    } else {
      assert |cfg.pools| == 0;
      if cfg.fallback != [] {
        var i := IndexOf(cfg.fallback, u);
        ChoicePick(cfg.fallback, i, n);
        assert SpeciesStep(cfg, PickAt(i), t, n).0 == u;
      } else {
        assert SpeciesStep(cfg, PickAt(0), t, n).0 == u;
      }
    }
  }

  /** The four cases in which a non-starter keeps its name. */
  lemma SpeciesKeptCases(cfg: SpeciesConfig, choose: nat -> nat, t: string, n: nat)
    requires t !in cfg.starterMap
    requires t in ProtectedSpecies
      || (cfg.pools != map[] && (t !in cfg.pools || cfg.pools[t] == []))
      || (cfg.pools == map[] && cfg.fallback == [])
    ensures SpeciesStep(cfg, choose, t, n) == (t, n)
  {
  }

  // ---------------------------------------------------------------------
  // Set-up: catalog, BST map, pools and starters.

  /** `get_all_species` of the current randomizer: a missing header gives the empty list. */
  function SpeciesCatalogOf(header: Option<string>): seq<string> {
    if header.None? then [] else CatalogOf(SplitLines(header.value), SpeciesPrefix, PoolExclusions)
  }

  /** `pool = bst_swap_pools.get(starter)`, then the pool's choice if it is non-empty, else the starter itself. */
  predicate StarterFromPools(pools: map<string, seq<string>>, s: string, u: string) {
    if s in pools && pools[s] != [] then u in pools[s] else u == s
  }

  /** The `for starter in ORIGINAL_STARTERS` loop of the BST mode. */
  method PoolStarters(pools: map<string, seq<string>>, choose: nat -> nat, n: nat)
    returns (starters: map<string, string>, n': nat)
    ensures starters.Keys == set s | s in OriginalStarters
    ensures forall s :: s in starters ==> StarterFromPools(pools, s, starters[s])
  {
    starters, n' := map[], n;
    var i := 0;
    while i < |OriginalStarters|
      invariant 0 <= i <= |OriginalStarters|
      invariant starters.Keys == set s | s in OriginalStarters[..i]
      invariant forall s :: s in starters ==> StarterFromPools(pools, s, starters[s])
    {
      var starter := OriginalStarters[i];
      assert OriginalStarters[..i + 1] == OriginalStarters[..i] + [starter];
      if starter in pools && pools[starter] != [] {
        starters := starters[starter := Choice(pools[starter], choose, n')];
        n' := n' + 1;
      } else {
        starters := starters[starter := starter];
      }
      i := i + 1;
    }
    assert OriginalStarters[..i] == OriginalStarters;
  }

  /** `{starter: choice(fallback_pool) for starter in ORIGINAL_STARTERS}`. */
  function RandomStarters(starters: seq<string>, fallback: seq<string>, choose: nat -> nat, n: nat): (r: (map<string, string>, nat))
    requires fallback != []
    ensures r.0.Keys == set s | s in starters
    ensures forall s :: s in r.0 ==> r.0[s] in fallback
  {
    if starters == [] then (map[], n)
    else
      var init := starters[..|starters| - 1];
      var last := starters[|starters| - 1];
      assert starters == init + [last];
      var (m, n') := RandomStarters(init, fallback, choose, n);
      (m[last := Choice(fallback, choose, n')], n' + 1)
  }

  /** The BST map the set-up computes: from the table when it loads and the catalog is non-empty, else from the header. */
  function BstMapOf(useBst: bool, header: Option<string>, rows: Option<seq<Row>>, baseStats: Option<string>): Option<Dict> {
    if !useBst then None
    else if rows.Some? && SpeciesCatalogOf(header) != [] then
      Some(Build(Collect(rows.value, CsvKeep(SpeciesCatalogOf(header)))))
    else if baseStats.Some? then
      Some(Build(Collect(Blocks(baseStats.value, 0), HeaderKeep(PoolExclusions))))
    else None
  }

  /**
   * What the set-up of `__main__` establishes. With a non-empty BST map:
   * its swap pools, no fallback, and each starter mapped through its pool.
   * Otherwise: no pools, the catalog as fallback, and each starter mapped to
   * a catalog member, or no starter map at all when the catalog is empty.
   */
  ghost predicate SetupSpec(useBst: bool, header: Option<string>, rows: Option<seq<Row>>, baseStats: Option<string>,
                            cfg: SpeciesConfig)
  {
    var bst := BstMapOf(useBst, header, rows, baseStats);
    if bst.Some? && bst.value != [] then
      cfg.pools == SwapPools(bst.value, BstSimilarityRange) && cfg.fallback == []
      && cfg.starterMap.Keys == (set s | s in OriginalStarters)
      && forall s :: s in cfg.starterMap ==> StarterFromPools(cfg.pools, s, cfg.starterMap[s])
    else
      cfg.pools == map[] && cfg.fallback == SpeciesCatalogOf(header)
      && (cfg.fallback == [] ==> cfg.starterMap == map[])
      && (cfg.fallback != [] ==>
            cfg.starterMap.Keys == (set s | s in OriginalStarters)
            && forall s :: s in cfg.starterMap ==> cfg.starterMap[s] in cfg.fallback)
  }

  /** `SPECIES_` is a valid token prefix. */
  lemma SpeciesPrefixValid()
    ensures ValidPrefix(SpeciesPrefix)
  {
  }

  /** A species with a total from the table is a catalog member, so it is not excluded. */
  lemma CsvMapNotExcluded(lines: seq<string>, rows: seq<Row>, excluded: seq<string>, u: string)
    ensures Lookup(Build(Collect(rows, CsvKeep(CatalogOf(lines, SpeciesPrefix, excluded)))), u).Some? ==> u !in excluded
  {
    SpeciesPrefixValid();
    CsvKeyValid(rows, CatalogOf(lines, SpeciesPrefix, excluded), u);
    if u in CatalogOf(lines, SpeciesPrefix, excluded) {
      CatalogNotExcluded(lines, SpeciesPrefix, excluded, u);
    }
  }

  /** A species with a total from the header passed the exclusion test of the block loop. */
  lemma HeaderMapNotExcluded(blocks: seq<Block>, u: string)
    ensures Lookup(Build(Collect(blocks, HeaderKeep(PoolExclusions))), u).Some? ==> u !in PoolExclusions
  {
    HeaderKeys(blocks, PoolExclusions, u);
  }

  /** Every species the BST map has a total for passed the exclusion list, on the table path or the header path. */
  lemma BstMapNotExcluded(useBst: bool, header: Option<string>, rows: Option<seq<Row>>, baseStats: Option<string>, u: string)
    ensures BstMapOf(useBst, header, rows, baseStats).Some? && Lookup(BstMapOf(useBst, header, rows, baseStats).value, u).Some?
      ==> u !in PoolExclusions
  {
    if !useBst {
    } else if rows.Some? && SpeciesCatalogOf(header) != [] {
      SpeciesPrefixValid();
      CsvMapNotExcluded(SplitLines(header.value), rows.value, PoolExclusions, u);
    } else if baseStats.Some? {
      HeaderMapNotExcluded(Blocks(baseStats.value, 0), u);
    }
  }

  /**
   * Whatever set-up ran, a species that the resolver replaces never becomes
   * one of `POOL_EXCLUSIONS`: pools hold only species of the BST map, and
   * the fallback is the catalog, which leaves the exclusions out.
   */
  lemma SetupNeverDrawsExcluded(useBst: bool, header: Option<string>, rows: Option<seq<Row>>, baseStats: Option<string>,
                                cfg: SpeciesConfig, t: string, u: string)
    requires SetupSpec(useBst, header, rows, baseStats, cfg)
    requires AllowedSpecies(cfg, t, u) && u != t
    ensures u !in PoolExclusions
  {
    var bst := BstMapOf(useBst, header, rows, baseStats);
    if bst.Some? && bst.value != [] {
      assert t in cfg.pools && u in cfg.pools[t];
      SwapPoolMember(bst.value, BstSimilarityRange, t, u);
      BstMapNotExcluded(useBst, header, rows, baseStats, u);
    } else {
      assert u in cfg.fallback;
      SpeciesPrefixValid();
      CatalogNotExcluded(SplitLines(header.value), SpeciesPrefix, PoolExclusions, u);
    }
  }

  /** `get_species_bst_map_from_csv`, falling back to `get_species_bst_map_from_header` when it gives `None`. */
  method LoadBstMap(useBst: bool, header: Option<string>, rows: Option<seq<Row>>, baseStats: Option<string>)
    returns (bst: Option<Dict>)
    ensures bst == BstMapOf(useBst, header, rows, baseStats)
  {
    bst := None;
    if useBst {
      var valid := LoadCatalog(header, SpeciesPrefix, PoolExclusions);
      bst := CsvBst(rows, valid);
      if bst.None? {
        bst := HeaderBst(baseStats, PoolExclusions);
      }
    }
  }

  /** The species part of `__main__` up to the file loop. */
  method SetupSpecies(useBst: bool, header: Option<string>, rows: Option<seq<Row>>, baseStats: Option<string>,
                      choose: nat -> nat, n: nat)
    returns (cfg: SpeciesConfig, n': nat)
    ensures SetupSpec(useBst, header, rows, baseStats, cfg)
  {
    var starterMap: map<string, string> := map[];
    var pools: map<string, seq<string>> := map[];
    var fallback: seq<string> := [];
    n' := n;
    var bst := LoadBstMap(useBst, header, rows, baseStats);
    if bst.Some? && bst.value != [] {
      pools := SwapPools(bst.value, BstSimilarityRange);
      starterMap, n' := PoolStarters(pools, choose, n');
      assert OriginalStarters[0] in starterMap;
    }
    if starterMap == map[] {
      pools := map[];
      fallback := LoadCatalog(header, SpeciesPrefix, PoolExclusions);
      if fallback != [] {
        var r := RandomStarters(OriginalStarters, fallback, choose, n');
        starterMap, n' := r.0, r.1;
      }
    }
    cfg := SpeciesConfig(starterMap, pools, fallback);
  }

  /**
   * The species phase of `__main__`: set up, and when there is a starter map,
   * rewrite every file of the species file list with the one configuration.
   */
  method RandomizeSpecies(fs: FileSystem, root: string, auto: seq<string>, useBst: bool, rows: Option<seq<Row>>,
                          choose: nat -> nat, n: nat)
    returns (fs': FileSystem, cfg: SpeciesConfig, n': nat)
    ensures SetupSpec(useBst, Get(fs, Join(root, SpeciesHeaderPath)), rows, Get(fs, Join(root, BaseStatsHeaderPath)), cfg)
    ensures fs'.Keys == fs.Keys
    ensures cfg.starterMap == map[] ==> fs' == fs
    ensures forall p :: p in fs && p !in SpeciesFileList(root, auto) ==> fs'[p] == fs[p]
    ensures cfg.starterMap != map[] ==>
      forall p :: p in fs && p in SpeciesFileList(root, auto) ==>
        FileConforms(fs[p], fs'[p], SpeciesPrefix, SpeciesAllowed(cfg))
  {
    var header := Get(fs, Join(root, SpeciesHeaderPath));
    var baseStats := Get(fs, Join(root, BaseStatsHeaderPath));
    cfg, n' := SetupSpecies(useBst, header, rows, baseStats, choose, n);
    fs' := fs;
    if cfg.starterMap != map[] {
      var files := SpeciesFileList(root, auto);
      SpeciesFileListCorrect(root, auto);
      SortedDistinct(files);
      SpeciesResolverRespects(cfg, choose);
      fs', n' := RewriteFiles(fs, files, SpeciesPrefix, SpeciesResolver(cfg, choose), SpeciesAllowed(cfg), n');
    }
  }
}
