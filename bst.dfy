/**
 * Base stat totals per species: `get_species_bst_map_from_csv` (the row
 * mapping after the table has been loaded) and `get_species_bst_map_from_header`
 * (the scan of `[SPECIES_X] = { ... };` blocks in the base stats header).
 */
module Bst {
  import opened Text
  import opened Options
  import opened Tokens
  import opened Dicts
  import opened Names

  /** One row of the stats table after loading: its `Name` and `Total` columns. */
  datatype Row = Row(name: string, total: int)

  /** The row is kept when its formatted name is a species of the catalog. */
  function CsvEntry(valid: seq<string>, row: Row): Option<(string, int)> {
    var c := FormatName(row.name);
    if c in valid then Some((c, row.total)) else None
  }

  function CsvKeep(valid: seq<string>): Row -> Option<(string, int)> {
    row => CsvEntry(valid, row)
  }

  /**
   * The CSV path. `rows == None` is the missing table; an empty species
   * catalog also gives `None`, as the source aborts the mapping then.
   */
  method CsvBst(rows: Option<seq<Row>>, valid: seq<string>) returns (r: Option<Dict>)
    ensures r.None? <==> rows.None? || valid == []
    ensures r.Some? ==> r.value == Build(Collect(rows.value, CsvKeep(valid)))
  {
    if rows.None? || valid == [] {
      return None;
    }
    var table := rows.value;
    var d: Dict := [];
    var i := 0;
    while i < |table|
      invariant 0 <= i <= |table|
      invariant d == Build(Collect(table[..i], CsvKeep(valid)))
    {
      var entry := CsvEntry(valid, table[i]);
      BuildCollectStep(table, i, CsvKeep(valid));
      if entry.Some? {
        d := Put(d, entry.value.0, entry.value.1);
      }
      i := i + 1;
    }
    assert table[..i] == table;
    return Some(d);
  }

  /** A species gets a total from the table iff some row's name formats to it and it is in the catalog. */
  lemma CsvKeys(rows: seq<Row>, valid: seq<string>, k: string)
    ensures Lookup(Build(Collect(rows, CsvKeep(valid))), k).Some? <==>
      k in valid && exists i :: 0 <= i < |rows| && FormatName(rows[i].name) == k
  {
    BuildLookup(Collect(rows, CsvKeep(valid)), k);
    CollectNone(rows, CsvKeep(valid), k);
  }

  /** Only catalog species get a total from the table. */
  lemma CsvKeyValid(rows: seq<Row>, valid: seq<string>, k: string)
    ensures Lookup(Build(Collect(rows, CsvKeep(valid))), k).Some? ==> k in valid
  {
    CsvKeys(rows, valid, k);
  }

  /** The total of a species is that of the last row that formats to it. */
  lemma CsvLastRowWins(rows: seq<Row>, valid: seq<string>, i: nat)
    requires i < |rows| && FormatName(rows[i].name) in valid
    requires forall j :: i < j < |rows| ==> FormatName(rows[j].name) != FormatName(rows[i].name)
    ensures Lookup(Build(Collect(rows, CsvKeep(valid))), FormatName(rows[i].name)) == Some(rows[i].total)
  {
    BuildLookup(Collect(rows, CsvKeep(valid)), FormatName(rows[i].name));
    CollectLast(rows, CsvKeep(valid), FormatName(rows[i].name), i);
  }

  // ---------------------------------------------------------------------
  // The base stats header.

  const StatNames: seq<string> := ["baseHP", "baseAttack", "baseDefense", "baseSpeed", "baseSpAttack", "baseSpDefense"]

  function SkipSpaces(s: string, i: nat): (j: nat)
    requires i <= |s|
    ensures i <= j <= |s|
    ensures forall k :: i <= k < j ==> IsSpace(s[k])
    ensures j == |s| || !IsSpace(s[j])
    decreases |s| - i
  {
    if i < |s| && IsSpace(s[i]) then SkipSpaces(s, i + 1) else i
  }

  function DigitEnd(s: string, i: nat): (j: nat)
    requires i <= |s|
    ensures i <= j <= |s|
    ensures forall k :: i <= k < j ==> IsDigit(s[k])
    ensures j == |s| || !IsDigit(s[j])
    decreases |s| - i
  {
    if i < |s| && IsDigit(s[i]) then DigitEnd(s, i + 1) else i
  }

  /** `int(ds)` for a string of decimal digits. */
  function DigitsValue(ds: string): nat {
    if ds == [] then 0
    else
      var d := ds[|ds| - 1];
      DigitsValue(ds[..|ds| - 1]) * 10 + (if IsDigit(d) then d as int - '0' as int else 0)
  }

  /** The pattern `\.STAT\s*=\s*(\d+)` at position `i`, with the value of its digits. */
  function StatAt(text: string, stat: string, i: nat): Option<nat>
    requires i <= |text|
  {
    var pat := "." + stat;
    if !OccursAt(text, pat, i) then None
    else
      var j := SkipSpaces(text, i + |pat|);
      if j == |text| || text[j] != '=' then None
      else
        var k := SkipSpaces(text, j + 1);
        if k == |text| || !IsDigit(text[k]) then None
        else Some(DigitsValue(text[k..DigitEnd(text, k)]))
  }

  /** `re.search`: the first position at or after `i` where the stat pattern matches. */
  function FindStat(text: string, stat: string, i: nat): Option<nat>
    requires i <= |text|
    decreases |text| - i
  {
    if StatAt(text, stat, i).Some? then StatAt(text, stat, i)
    else if i == |text| then None
    else FindStat(text, stat, i + 1)
  }

  /** The search finds the first match, and finds nothing only when there is no match. */
  lemma {:induction false} FindStatFirst(text: string, stat: string, i: nat)
    requires i <= |text|
    ensures FindStat(text, stat, i).None? <==> forall p :: i <= p <= |text| ==> StatAt(text, stat, p).None?
    ensures FindStat(text, stat, i).Some? ==>
      exists p :: i <= p <= |text| && StatAt(text, stat, p) == FindStat(text, stat, i)
        && forall q :: i <= q < p ==> StatAt(text, stat, q).None?
    decreases |text| - i
  {
    if StatAt(text, stat, i).None? && i < |text| {
      FindStatFirst(text, stat, i + 1);
      if FindStat(text, stat, i + 1).Some? {
        var p :| i + 1 <= p <= |text| && StatAt(text, stat, p) == FindStat(text, stat, i + 1)
          && forall q :: i + 1 <= q < p ==> StatAt(text, stat, q).None?;
        assert forall q :: i <= q < p ==> StatAt(text, stat, q).None?;
      }
    }
  }

  /** A `[SPECIES_X] =(.+?)};` block: the species name and the text between `=` and `};`. */
  datatype Block = Block(name: string, body: string)

  /**
   * The block pattern (with `.` matching newlines) at position `i`, and the
   * position after the match. `.+?` takes at least one character and stops
   * at the first `};` after it.
   */
  function BlockAt(s: string, i: nat): (r: Option<(Block, nat)>)
    requires i <= |s|
    ensures r.Some? ==> i < r.value.1 <= |s|
  {
    if !(i < |s| && s[i] == '[') then None
    else if !OccursAt(s, SpeciesPrefix, i + 1) then None
    else
      var w := i + 1 + |SpeciesPrefix|;
      if !(w < |s| && IsWordChar(s[w])) then None
      else
        var e := WordEnd(s, w);
        if !OccursAt(s, "] =", e) then None
        else
          var g := e + 3;
          if g >= |s| then None
          else
            var k := FindFrom(s, "};", g + 1);
            if k == -1 then None
            else
              Some((Block(s[i + 1..e], s[g..k]), (k + 2) as nat))
  }

  /** `re.finditer` over the whole header: matches do not overlap, the search resumes after each one. */
  function Blocks(s: string, i: nat): (r: seq<Block>)
    requires i <= |s|
    decreases |s| - i
  {
    if i == |s| then []
    else
      match BlockAt(s, i)
      case Some((b, e)) => [b] + Blocks(s, e)
      case None => Blocks(s, i + 1)
  }

  /** Every block name is a `SPECIES_` token. */
  lemma BlockNameValid(s: string, i: nat)
    requires i <= |s| && BlockAt(s, i).Some?
    ensures ValidToken(BlockAt(s, i).value.0.name, SpeciesPrefix)
  {
    var w := i + 1 + |SpeciesPrefix|;
    var e := WordEnd(s, w);
    var name := s[i + 1..e];
    assert BlockAt(s, i).value.0.name == name;
    assert name[..|SpeciesPrefix|] == s[i + 1..w];
    forall q | 0 <= q < |name| ensures IsWordChar(name[q]) {
      if q < |SpeciesPrefix| {
        assert name[q] == SpeciesPrefix[q];
      } else {
        assert name[q] == s[i + 1 + q];
      }
    }
  }

  lemma {:induction false} BlocksNamed(s: string, i: nat)
    requires i <= |s|
    ensures forall b :: b in Blocks(s, i) ==> ValidToken(b.name, SpeciesPrefix)
    decreases |s| - i
  {
    if i < |s| {
      match BlockAt(s, i)
      case Some((b, e)) =>
        BlockNameValid(s, i);
        BlocksNamed(s, e);
      case None =>
        BlocksNamed(s, i + 1);
    }
  }

  /** The number of the given stats present in a block's text. */
  function FoundCount(body: string, stats: seq<string>): (c: nat)
    ensures c <= |stats|
  {
    if stats == [] then 0
    else FoundCount(body, stats[..|stats| - 1]) + (if FindStat(body, stats[|stats| - 1], 0).Some? then 1 else 0)
  }

  /** The sum of the given stats present in a block's text. */
  function StatSum(body: string, stats: seq<string>): int {
    if stats == [] then 0
    else
      var m := FindStat(body, stats[|stats| - 1], 0);
      StatSum(body, stats[..|stats| - 1]) + (if m.Some? then m.value else 0)
  }

  lemma {:induction false} FoundAll(body: string, stats: seq<string>)
    ensures FoundCount(body, stats) == |stats| <==> forall i :: 0 <= i < |stats| ==> FindStat(body, stats[i], 0).Some?
    decreases |stats|
  {
    if stats != [] {
      var init := stats[..|stats| - 1];
      FoundAll(body, init);
      assert forall i :: 0 <= i < |init| ==> init[i] == stats[i];
    }
  }

  /** The block contributes to the map: not excluded and all six stats found. */
  function HeaderEntry(exclusions: seq<string>, b: Block): Option<(string, int)> {
    if b.name in exclusions then None
    else if FoundCount(b.body, StatNames) == |StatNames| then Some((b.name, StatSum(b.body, StatNames)))
    else None
  }

  /** The inner `for stat in stat_names` loop: the sum and the number of the stats found in one block. */
  method SumStats(body: string) returns (total: int, found: nat)
    ensures total == StatSum(body, StatNames)
    ensures found == FoundCount(body, StatNames)
  {
    total, found := 0, 0;
    var j := 0;
    while j < |StatNames|
      invariant 0 <= j <= |StatNames|
      invariant found == FoundCount(body, StatNames[..j])
      invariant total == StatSum(body, StatNames[..j])
    {
      assert StatNames[..j + 1][..j] == StatNames[..j];
      var m := FindStat(body, StatNames[j], 0);
      if m.Some? {
        total := total + m.value;
        found := found + 1;
      }
      j := j + 1;
    }
    assert StatNames[..j] == StatNames;
  }

  lemma HeaderEntryOf(exclusions: seq<string>, b: Block, total: int, found: nat)
    requires b.name !in exclusions
    requires total == StatSum(b.body, StatNames) && found == FoundCount(b.body, StatNames)
    ensures HeaderEntry(exclusions, b) == if found == |StatNames| then Some((b.name, total)) else None
  {
  }

  function HeaderKeep(exclusions: seq<string>): Block -> Option<(string, int)> {
    b => HeaderEntry(exclusions, b)
  }

  /** The header path: `None` is the missing file. */
  method HeaderBst(content: Option<string>, exclusions: seq<string>) returns (r: Option<Dict>)
    ensures r.None? <==> content.None?
    ensures r.Some? ==> r.value == Build(Collect(Blocks(content.value, 0), HeaderKeep(exclusions)))
  {
    if content.None? {
      return None;
    }
    var blocks := Blocks(content.value, 0);
    var d: Dict := [];
    var i := 0;
    while i < |blocks|
      invariant 0 <= i <= |blocks|
      invariant d == Build(Collect(blocks[..i], HeaderKeep(exclusions)))
    {
      var block := blocks[i];
      BuildCollectStep(blocks, i, HeaderKeep(exclusions));
      if block.name !in exclusions {
        var total, found := SumStats(block.body);
        HeaderEntryOf(exclusions, block, total, found);
        if found == |StatNames| {
          d := Put(d, block.name, total);
        }
      }
      i := i + 1;
    }
    assert blocks[..i] == blocks;
    return Some(d);
  }

  /** A species gets a total iff some block of it is not excluded and has all six stats. */
  lemma HeaderKeys(blocks: seq<Block>, exclusions: seq<string>, k: string)
    ensures Lookup(Build(Collect(blocks, HeaderKeep(exclusions))), k).Some? <==>
      k !in exclusions
      && (exists i :: 0 <= i < |blocks| && blocks[i].name == k
            && forall s :: 0 <= s < |StatNames| ==> FindStat(blocks[i].body, StatNames[s], 0).Some?)
  {
    BuildLookup(Collect(blocks, HeaderKeep(exclusions)), k);
    CollectNone(blocks, HeaderKeep(exclusions), k);
    forall i | 0 <= i < |blocks| { FoundAll(blocks[i].body, StatNames); }
  }

  /** The total is the sum of the six stats of the last complete block of that species. */
  lemma HeaderLastBlockWins(blocks: seq<Block>, exclusions: seq<string>, i: nat)
    requires i < |blocks| && HeaderEntry(exclusions, blocks[i]).Some?
    requires forall j :: i < j < |blocks| ==> HeaderEntry(exclusions, blocks[j]).None? || blocks[j].name != blocks[i].name
    ensures Lookup(Build(Collect(blocks, HeaderKeep(exclusions))), blocks[i].name)
      == Some(StatSum(blocks[i].body, StatNames))
  {
    BuildLookup(Collect(blocks, HeaderKeep(exclusions)), blocks[i].name);
    CollectLast(blocks, HeaderKeep(exclusions), blocks[i].name, i);
  }
}
