/**
 * The `#define` catalogs: `get_all_species` (both versions) and
 * `get_all_abilities` read a header line by line and keep the constant
 * named by every line that `re.match(r"#define (PREFIX\w+)\s", line)` accepts,
 * unless it is in an exclusion list.
 */
module Catalog {
  import opened Options
  import opened Text
  import opened Tokens

  const DefineDirective: string := "#define "

  /**
   * Group 1 of the match at the start of `line`: the directive, the prefix,
   * the longest run of word characters after it (at least one) and then a
   * whitespace character. A shorter run would be followed by a word
   * character, so backtracking never finds another match.
   */
  function DefineName(line: string, prefix: string): Option<string>
    requires ValidPrefix(prefix)
  {
    var p := |DefineDirective|;
    var w := p + |prefix|;
    if !StartsWith(line, DefineDirective + prefix) || w >= |line| || !IsWordChar(line[w]) then None
    else
      var e := WordEnd(line, w);
      if e < |line| && IsSpace(line[e]) then Some(line[p..e]) else None
  }

  /** A defined name is a token: the prefix and at least one more word character. */
  lemma DefineNameValid(line: string, prefix: string)
    requires ValidPrefix(prefix) && DefineName(line, prefix).Some?
    ensures ValidToken(DefineName(line, prefix).value, prefix)
  {
    var p := |DefineDirective|;
    var w := p + |prefix|;
    var e := WordEnd(line, w);
    var name := line[p..e];
    assert (DefineDirective + prefix)[p..] == prefix;
    assert name[..|prefix|] == line[p..w];
    forall q | 0 <= q < |name| ensures IsWordChar(name[q]) {
      if q < |prefix| {
        assert name[q] == prefix[q];
      } else {
        assert name[q] == line[p + q];
      }
    }
  }

  /** What one line contributes to the catalog. */
  function LineEntry(line: string, prefix: string, excluded: seq<string>): seq<string>
    requires ValidPrefix(prefix)
  {
    match DefineName(line, prefix)
    case Some(name) => if name in excluded then [] else [name]
    case None => []
  }

  /** Reference: the kept names of all lines, in file order, duplicates included. */
  function CatalogOf(lines: seq<string>, prefix: string, excluded: seq<string>): seq<string>
    requires ValidPrefix(prefix)
  {
    if lines == [] then []
    else CatalogOf(lines[..|lines| - 1], prefix, excluded) + LineEntry(lines[|lines| - 1], prefix, excluded)
  }

  /**
   * The loader: the lines of the header, `for line in f`, appending each kept
   * name. A header that cannot be found gives the empty catalog.
   */
  method LoadCatalog(content: Option<string>, prefix: string, excluded: seq<string>) returns (list: seq<string>)
    requires ValidPrefix(prefix)
    ensures content.None? ==> list == []
    ensures content.Some? ==> list == CatalogOf(SplitLines(content.value), prefix, excluded)
  {
    list := [];
    if content.Some? {
      var lines := SplitLines(content.value);
      var i := 0;
      while i < |lines|
        invariant 0 <= i <= |lines|
        invariant list == CatalogOf(lines[..i], prefix, excluded)
      {
        assert lines[..i + 1][..i] == lines[..i];
        var m := DefineName(lines[i], prefix);
        if m.Some? && m.value !in excluded {
          list := list + [m.value];
        }
        i := i + 1;
      }
      assert lines[..|lines|] == lines;
    }
  }

  /** Catalogs of consecutive parts of a file concatenate: file order is kept and nothing is merged. */
  lemma {:induction false} CatalogAppend(a: seq<string>, b: seq<string>, prefix: string, excluded: seq<string>)
    requires ValidPrefix(prefix)
    ensures CatalogOf(a + b, prefix, excluded) == CatalogOf(a, prefix, excluded) + CatalogOf(b, prefix, excluded)
    decreases |b|
  {
    if b == [] {
      assert a + b == a;
    } else {
      var b' := b[..|b| - 1];
      assert (a + b)[..|a + b| - 1] == a + b';
      CatalogAppend(a, b', prefix, excluded);
    }
  }

  /** A name is in the catalog iff some line defines it and it is not excluded. */
  lemma {:induction false} CatalogMember(lines: seq<string>, prefix: string, excluded: seq<string>, x: string)
    requires ValidPrefix(prefix)
    ensures x in CatalogOf(lines, prefix, excluded) <==>
      x !in excluded && exists i :: 0 <= i < |lines| && DefineName(lines[i], prefix) == Some(x)
    decreases |lines|
  {
    if lines != [] {
      var init := lines[..|lines| - 1];
      CatalogMember(init, prefix, excluded, x);
      assert forall i :: 0 <= i < |init| ==> init[i] == lines[i];
      if x !in excluded && DefineName(lines[|lines| - 1], prefix) == Some(x) {
        assert x in LineEntry(lines[|lines| - 1], prefix, excluded);
      }
    }
  }

  /** No catalog entry is excluded. */
  lemma CatalogNotExcluded(lines: seq<string>, prefix: string, excluded: seq<string>, x: string)
    requires ValidPrefix(prefix)
    requires x in CatalogOf(lines, prefix, excluded)
    ensures x !in excluded
  {
    CatalogMember(lines, prefix, excluded, x);
  }

  /** Every catalog entry is a token of the catalog's prefix. */
  lemma CatalogTokens(lines: seq<string>, prefix: string, excluded: seq<string>, x: string)
    requires ValidPrefix(prefix)
    requires x in CatalogOf(lines, prefix, excluded)
    ensures ValidToken(x, prefix)
  {
    CatalogMember(lines, prefix, excluded, x);
    var i :| 0 <= i < |lines| && DefineName(lines[i], prefix) == Some(x);
    DefineNameValid(lines[i], prefix);
  }
}
