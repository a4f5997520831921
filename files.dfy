/**
 * The project tree as a map from full paths to file contents, and the
 * `for file_path in files: randomize_*_in_file(...)` loop over it. A path
 * that is not in the map is a file that does not exist: the rewrite reports
 * it and moves on, leaving the tree as it is.
 */
module Files {
  import opened Options
  import opened Text
  import opened Tokens
  import opened Regions

  type FileSystem = map<string, string>

  /** The content of `path`, or `None` when `open` would raise `FileNotFoundError`. */
  function Get(fs: FileSystem, path: string): (r: Option<string>)
    ensures r.Some? <==> path in fs
    ensures r.Some? ==> r.value == fs[path]
  {
    if path in fs then Some(fs[path]) else None
  }

  predicate Distinct(files: seq<string>) {
    forall i, j :: 0 <= i < j < |files| ==> files[i] != files[j]
  }

  /**
   * Every listed file that exists is read, rewritten and written back; no
   * file is created or removed and no file off the list changes.
   */
  method RewriteFiles(fs: FileSystem, files: seq<string>, prefix: string, resolve: Resolver,
                      ghost allowed: (string, string) -> bool, n: nat)
    returns (fs': FileSystem, n': nat)
    requires ValidPrefix(prefix)
    requires Respects(resolve, allowed)
    requires Distinct(files)
    ensures fs'.Keys == fs.Keys
    ensures forall p :: p in fs && p !in files ==> fs'[p] == fs[p]
    ensures forall p :: p in fs && p in files ==> FileConforms(fs[p], fs'[p], prefix, allowed)
  {
    fs', n' := fs, n;
    var i := 0;
    while i < |files|
      invariant 0 <= i <= |files|
      invariant fs'.Keys == fs.Keys
      invariant forall p :: p in fs && p !in files[..i] ==> fs'[p] == fs[p]
      invariant forall p :: p in fs && p in files[..i] ==> FileConforms(fs[p], fs'[p], prefix, allowed)
    {
      var path := files[i];
      assert path !in files[..i];
      assert files[..i + 1] == files[..i] + [path];
      var content := Get(fs', path);
      if content.Some? {
        var out;
        out, n' := RewriteContent(content.value, prefix, resolve, allowed, n');
        fs' := fs'[path := out];
      }
      i := i + 1;
    }
    assert files[..|files|] == files;
  }

  /**
   * The position of the first listed file that does not exist. As written,
   * `randomize_species_in_file` and `randomize_items_in_file` open the file
   * before they assign `relative_path`, and their `FileNotFoundError`
   * handler reads `relative_path`: for a missing file the handler itself
   * raises `UnboundLocalError`, which nothing catches, so the run stops there.
   */
  function FirstMissing(fs: FileSystem, files: seq<string>): (r: Option<nat>)
    ensures r.None? <==> forall i :: 0 <= i < |files| ==> files[i] in fs
    ensures r.Some? ==>
      (r.value < |files| && files[r.value] !in fs && forall i :: 0 <= i < r.value ==> files[i] in fs)
  {
    if files == [] then None
    else if files[0] !in fs then Some(0)
    else
      match FirstMissing(fs, files[1..])
      case None => None
      case Some(k) => Some(k + 1)
  }

  /**
   * The file loop as written: the files before the first missing one are
   * rewritten, then the run stops (`crashed` is its position); without a
   * missing file every file is rewritten.
   */
  method RewriteFilesAsWritten(fs: FileSystem, files: seq<string>, prefix: string, resolve: Resolver,
                               ghost allowed: (string, string) -> bool, n: nat)
    returns (fs': FileSystem, n': nat, crashed: Option<nat>)
    requires ValidPrefix(prefix)
    requires Respects(resolve, allowed)
    requires Distinct(files)
    ensures crashed == FirstMissing(fs, files)
    ensures fs'.Keys == fs.Keys
    ensures var done := if crashed.Some? then files[..crashed.value] else files;
      (forall p :: p in fs && p !in done ==> fs'[p] == fs[p])
      && (forall p :: p in fs && p in done ==> FileConforms(fs[p], fs'[p], prefix, allowed))
  {
    fs', n', crashed := fs, n, None;
    var i := 0;
    while i < |files|
      invariant 0 <= i <= |files|
      invariant forall k :: 0 <= k < i ==> files[k] in fs
      invariant fs'.Keys == fs.Keys
      invariant forall p :: p in fs && p !in files[..i] ==> fs'[p] == fs[p]
      invariant forall p :: p in fs && p in files[..i] ==> FileConforms(fs[p], fs'[p], prefix, allowed)
    {
      var path := files[i];
      assert path !in files[..i];
      if path !in fs' {
        crashed := Some(i);
        return;
      }
      assert files[..i + 1] == files[..i] + [path];
      var out;
      out, n' := RewriteContent(fs'[path], prefix, resolve, allowed, n');
      fs' := fs'[path := out];
      i := i + 1;
    }
    assert files[..|files|] == files;
  }

  /**
   * A concrete tree that shows the crash. `src/data/ingame_trades.h` is the
   * first manual file in sorted order; when no discovered file sorts before
   * it and it is missing, the as-written loop stops at position 0, so
   * `src/data/trainer_parties.h` keeps its species although it is listed.
   */
  method MissingIngameTradesStopsRun(resolve: Resolver, ghost allowed: (string, string) -> bool, n: nat)
    returns (fs': FileSystem, crashed: Option<nat>)
    requires Respects(resolve, allowed)
    ensures crashed == Some(0)
    ensures fs' == map["pokefirered/src/data/trainer_parties.h" := "SPECIES_RATTATA"]
  {
    var fs := map["pokefirered/src/data/trainer_parties.h" := "SPECIES_RATTATA"];
    var files := ["pokefirered/src/data/ingame_trades.h", "pokefirered/src/data/trainer_parties.h"];
    assert ValidPrefix("SPECIES_");
    assert "pokefirered/src/data/trainer_parties.h" !in files[..0];
    var n';
    fs', n', crashed := RewriteFilesAsWritten(fs, files, "SPECIES_", resolve, allowed, n);
  }
}
