/**
 * The marker-delimited rewriting loop shared by `randomize_species_in_file`
 * (both versions of the randomizer) and `randomize_items_in_file`.
 */
module Regions {
  import opened Text
  import opened Tokens

  const StartMarker: string := "// RANDOMIZER_START"
  const EndMarker: string := "// RANDOMIZER_END"

  /**
   * The value of `randomize_enabled` after line `i` has been read: a START
   * line switches it on, otherwise an END line switches it off, any other
   * line leaves it as it was. It starts off.
   */
  predicate FlagAfter(lines: seq<string>, i: nat)
    requires i < |lines|
  {
    if Contains(lines[i], StartMarker) then true
    else if Contains(lines[i], EndMarker) then false
    else i > 0 && FlagAfter(lines, i - 1)
  }

  /** Line `i` is sent through the substitution. */
  predicate Rewritten(lines: seq<string>, i: nat)
    requires i < |lines|
  {
    FlagAfter(lines, i) && !Contains(lines[i], StartMarker)
  }

  /**
   * An independent description of the flag: some earlier (or the same) line
   * carries START, and no line after it up to `i` carries END.
   */
  ghost predicate OpenRegion(lines: seq<string>, i: nat)
    requires i < |lines|
  {
    exists j :: 0 <= j <= i && Contains(lines[j], StartMarker)
      && forall k :: j < k <= i ==> !Contains(lines[k], EndMarker)
  }

  lemma {:induction false} FlagAfterIsOpenRegion(lines: seq<string>, i: nat)
    requires i < |lines|
    ensures FlagAfter(lines, i) <==> OpenRegion(lines, i)
    decreases i
  {
    if Contains(lines[i], StartMarker) {
    } else if Contains(lines[i], EndMarker) {
      forall j | 0 <= j <= i && Contains(lines[j], StartMarker)
        ensures exists k :: j < k <= i && Contains(lines[k], EndMarker)
      {
        assert j < i;
      }
    } else if i == 0 {
    } else {
      FlagAfterIsOpenRegion(lines, i - 1);
      if OpenRegion(lines, i) {
        var j :| 0 <= j <= i && Contains(lines[j], StartMarker)
          && forall k :: j < k <= i ==> !Contains(lines[k], EndMarker);
        assert j <= i - 1;
        assert OpenRegion(lines, i - 1);
      }
      if OpenRegion(lines, i - 1) {
        var j :| 0 <= j <= i - 1 && Contains(lines[j], StartMarker)
          && forall k :: j < k <= i - 1 ==> !Contains(lines[k], EndMarker);
        assert OpenRegion(lines, i);
      }
    }
  }

  /** Lines before the first START line are never rewritten. */
  lemma BeforeFirstStartPassesThrough(lines: seq<string>, i: nat)
    requires i < |lines|
    requires forall k :: 0 <= k <= i ==> !Contains(lines[k], StartMarker)
    ensures !Rewritten(lines, i)
  {
    FlagAfterIsOpenRegion(lines, i);
  }

  /** Lines from an END line up to the next START line are never rewritten. */
  lemma AfterEndPassesThrough(lines: seq<string>, j: nat, i: nat)
    requires j <= i < |lines|
    requires Contains(lines[j], EndMarker)
    requires forall k :: j <= k <= i ==> !Contains(lines[k], StartMarker)
    ensures !Rewritten(lines, i)
  {
    FlagAfterIsOpenRegion(lines, i);
    forall s | 0 <= s <= i && Contains(lines[s], StartMarker)
      ensures exists k :: s < k <= i && Contains(lines[k], EndMarker)
    {
      assert s < j;
    }
  }

  /** Every other line, one that follows an open START and is not itself START or END, is rewritten. */
  lemma InsideRegionRewritten(lines: seq<string>, j: nat, i: nat)
    requires j < i < |lines|
    requires Contains(lines[j], StartMarker)
    requires forall k :: j < k <= i ==> !Contains(lines[k], EndMarker) && !Contains(lines[k], StartMarker)
    ensures Rewritten(lines, i)
  {
    FlagAfterIsOpenRegion(lines, i);
  }

  /** START and END lines themselves are never rewritten. */
  lemma MarkerLinesPassThrough(lines: seq<string>, i: nat)
    requires i < |lines|
    requires Contains(lines[i], StartMarker) || Contains(lines[i], EndMarker)
    ensures !Rewritten(lines, i)
  {
  }

  /** Per line: the rewritten lines conform to `allowed`, all other lines are byte-identical. */
  ghost predicate RegionConforms(lines: seq<string>, out: seq<string>, prefix: string, allowed: (string, string) -> bool)
    requires ValidPrefix(prefix)
  {
    |out| == |lines|
    && forall i :: 0 <= i < |lines| ==>
      (Rewritten(lines, i) ==> Conforms(lines[i], out[i], prefix, allowed))
      && (!Rewritten(lines, i) ==> out[i] == lines[i])
  }

  /** The `for line in lines` loop that toggles `randomize_enabled` and appends to `new_lines`. */
  method RewriteMarked(lines: seq<string>, prefix: string, resolve: Resolver, ghost allowed: (string, string) -> bool, n: nat)
    returns (out: seq<string>, n': nat)
    requires ValidPrefix(prefix)
    requires Respects(resolve, allowed)
    ensures RegionConforms(lines, out, prefix, allowed)
  {
    out := [];
    n' := n;
    var enabled := false;
    var i := 0;
    while i < |lines|
      invariant 0 <= i <= |lines|
      invariant |out| == i
      invariant i > 0 ==> enabled == FlagAfter(lines, i - 1)
      invariant i == 0 ==> !enabled
      invariant forall k :: 0 <= k < i ==>
        (Rewritten(lines, k) ==> Conforms(lines[k], out[k], prefix, allowed))
        && (!Rewritten(lines, k) ==> out[k] == lines[k])
    {
      var line := lines[i];
      if Contains(line, StartMarker) {
        enabled := true;
      } else if Contains(line, EndMarker) {
        enabled := false;
      }
      assert enabled == FlagAfter(lines, i);
      if enabled && !Contains(line, StartMarker) {
        var r := Substitute(line, prefix, resolve, n');
        SubstituteConforms(line, prefix, resolve, allowed, n');
        out := out + [r.0];
        n' := r.1;
      } else {
        out := out + [line];
      }
      i := i + 1;
    }
  }

  /**
   * What rewriting a whole file promises: with a START marker anywhere, the
   * lines as `RegionConforms` describes them, joined again; without one, the
   * whole content conforms.
   */
  ghost predicate FileConforms(content: string, out: string, prefix: string, allowed: (string, string) -> bool)
    requires ValidPrefix(prefix)
  {
    if Contains(content, StartMarker) then
      exists newLines :: RegionConforms(SplitLines(content), newLines, prefix, allowed) && out == Concat(newLines)
    else Conforms(content, out, prefix, allowed)
  }

  /**
   * The body of `randomize_*_in_file` between reading and writing: with a
   * START marker anywhere in the content only the marked lines are rewritten,
   * otherwise the whole content is.
   */
  method RewriteContent(content: string, prefix: string, resolve: Resolver, ghost allowed: (string, string) -> bool, n: nat)
    returns (out: string, n': nat)
    requires ValidPrefix(prefix)
    requires Respects(resolve, allowed)
    ensures FileConforms(content, out, prefix, allowed)
  {
    if Contains(content, StartMarker) {
      var newLines;
      newLines, n' := RewriteMarked(SplitLines(content), prefix, resolve, allowed, n);
      out := Concat(newLines);
    } else {
      var r := Substitute(content, prefix, resolve, n);
      SubstituteConforms(content, prefix, resolve, allowed, n);
      out, n' := r.0, r.1;
    }
  }
}
