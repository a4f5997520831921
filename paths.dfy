/**
 * The lists of files to process: `sorted(list(set(manual + auto)))` for
 * species and the same with the excluded files removed for items. Paths
 * are strings; `os.path.join(PROJECT_ROOT, path)` joins with one `/`. The
 * automatically discovered `scripts.inc` paths are an input.
 */
module Paths {
  import opened Text

  const ManualFilesToRandomize: seq<string> := [
    "src/data/wild_encounters.h",
    "src/data/trainer_parties.h",
    "src/oak_speech.c",
    "src/data/ingame_trades.h",
    "src/field_specials.c"
  ]

  const ManualItemFiles: seq<string> := ["src/field_specials.c", "src/script_menu.c", "src/daycare.c"]

  const ExcludedItemFiles: seq<string> := ["src/data/pokemon_mart.c"]

  function Join(root: string, path: string): string {
    root + "/" + path
  }

  /** `[os.path.join(root, path) for path in paths]`. */
  function JoinAll(root: string, paths: seq<string>): (r: seq<string>)
    ensures |r| == |paths|
    ensures forall i :: 0 <= i < |paths| ==> r[i] == Join(root, paths[i])
  {
    if paths == [] then [] else [Join(root, paths[0])] + JoinAll(root, paths[1..])
  }

  /** Ascending in Python's string order and therefore free of duplicates. */
  predicate StrictlySorted(xs: seq<string>) {
    forall i, j :: 0 <= i < j < |xs| ==> Less(xs[i], xs[j])
  }

  lemma SortedDistinct(xs: seq<string>)
    requires StrictlySorted(xs)
    ensures forall i, j :: 0 <= i < j < |xs| ==> xs[i] != xs[j]
  {
    forall i, j | 0 <= i < j < |xs| ensures xs[i] != xs[j] {
      LessIrreflexive(xs[i]);
    }
  }

  /** Insertion into a sorted list; an element already present is not added again. */
  function Insert(x: string, xs: seq<string>): seq<string> {
    if xs == [] then [x]
    else if x == xs[0] then xs
    else if Less(x, xs[0]) then [x] + xs
    else [xs[0]] + Insert(x, xs[1..])
  }

  lemma {:induction false} InsertElements(x: string, xs: seq<string>)
    ensures forall y :: y in Insert(x, xs) <==> y == x || y in xs
    decreases |xs|
  {
    if xs != [] && x != xs[0] && !Less(x, xs[0]) {
      InsertElements(x, xs[1..]);
      assert xs == [xs[0]] + xs[1..];
    }
  }

  lemma {:induction false} InsertSorted(x: string, xs: seq<string>)
    requires StrictlySorted(xs)
    ensures StrictlySorted(Insert(x, xs))
    decreases |xs|
  {
    if xs == [] || x == xs[0] {
    } else if Less(x, xs[0]) {
      var r := [x] + xs;
      forall i, j | 0 <= i < j < |r| ensures Less(r[i], r[j]) {
        if i == 0 && j > 1 {
          LessTransitive(x, xs[0], xs[j - 1]);
        }
      }
    } else {
      LessTotal(x, xs[0]);
      var rest := Insert(x, xs[1..]);
      InsertSorted(x, xs[1..]);
      InsertElements(x, xs[1..]);
      var r := [xs[0]] + rest;
      forall i, j | 0 <= i < j < |r| ensures Less(r[i], r[j]) {
        if i == 0 {
          assert r[j] == rest[j - 1] && r[j] in rest;
          if r[j] != x {
            var k :| 0 <= k < |xs[1..]| && xs[1..][k] == r[j];
            assert xs[k + 1] == r[j];
          }
        } else {
          assert r[i] == rest[i - 1] && r[j] == rest[j - 1];
        }
      }
    }
  }

  /** `sorted(list(set(paths)))`. */
  function SortedUnique(paths: seq<string>): seq<string> {
    if paths == [] then [] else Insert(paths[|paths| - 1], SortedUnique(paths[..|paths| - 1]))
  }

  /** The sorted list is strictly ascending and holds exactly the given paths. */
  lemma {:induction false} SortedUniqueCorrect(paths: seq<string>)
    ensures StrictlySorted(SortedUnique(paths))
    ensures forall p :: p in SortedUnique(paths) <==> p in paths
    decreases |paths|
  {
    if paths != [] {
      var init := paths[..|paths| - 1];
      SortedUniqueCorrect(init);
      InsertSorted(paths[|paths| - 1], SortedUnique(init));
      InsertElements(paths[|paths| - 1], SortedUnique(init));
      assert paths == init + [paths[|paths| - 1]];
    }
  }

  /** `sorted(list(set(manual_files_full_path + auto_discovered_files)))`. */
  function SpeciesFileList(root: string, auto: seq<string>): seq<string> {
    SortedUnique(JoinAll(root, ManualFilesToRandomize) + auto)
  }

  /** `[f for f in files if f not in excluded]`. */
  function Without(files: seq<string>, excluded: seq<string>): (r: seq<string>)
    ensures forall f :: f in r <==> f in files && f !in excluded
  {
    if files == [] then []
    else
      (if files[0] in excluded then [] else [files[0]]) + Without(files[1..], excluded)
  }

  /** The item files: manual and discovered ones, less the excluded ones, sorted. */
  function ItemFileList(root: string, auto: seq<string>): seq<string> {
    SortedUnique(Without(JoinAll(root, ManualItemFiles) + auto, JoinAll(root, ExcludedItemFiles)))
  }

  /** The species file list is sorted, has no duplicates and holds every manual and every discovered file. */
  lemma SpeciesFileListCorrect(root: string, auto: seq<string>)
    ensures StrictlySorted(SpeciesFileList(root, auto))
    ensures forall f :: f in SpeciesFileList(root, auto) <==>
      f in auto || exists m :: m in ManualFilesToRandomize && f == Join(root, m)
  {
    var joined := JoinAll(root, ManualFilesToRandomize);
    SortedUniqueCorrect(joined + auto);
    forall f ensures f in joined <==> exists m :: m in ManualFilesToRandomize && f == Join(root, m) {
      if f in joined {
        var i :| 0 <= i < |joined| && joined[i] == f;
        assert ManualFilesToRandomize[i] in ManualFilesToRandomize;
      }
    }
  }

  /** The item file list is sorted, has no duplicates and holds exactly the non-excluded manual and discovered files. */
  lemma ItemFileListCorrect(root: string, auto: seq<string>)
    ensures StrictlySorted(ItemFileList(root, auto))
    ensures forall f :: f in ItemFileList(root, auto) <==>
      (f in auto || exists m :: m in ManualItemFiles && f == Join(root, m))
      && !exists x :: x in ExcludedItemFiles && f == Join(root, x)
  {
    var joined := JoinAll(root, ManualItemFiles);
    var excluded := JoinAll(root, ExcludedItemFiles);
    SortedUniqueCorrect(Without(joined + auto, excluded));
    forall f ensures f in joined <==> exists m :: m in ManualItemFiles && f == Join(root, m) {
      if f in joined {
        var i :| 0 <= i < |joined| && joined[i] == f;
        assert ManualItemFiles[i] in ManualItemFiles;
      }
    }
    forall f ensures f in excluded <==> exists x :: x in ExcludedItemFiles && f == Join(root, x) {
      if f in excluded {
        var i :| 0 <= i < |excluded| && excluded[i] == f;
        assert ExcludedItemFiles[i] in ExcludedItemFiles;
      }
    }
  }
}
