/** `format_name_to_species_constant`: a display name from the stats table to a `SPECIES_` constant. */
module Names {
  import opened Text

  const SpeciesPrefix: string := "SPECIES_"

  /**
   * `re.sub(r'(?<!^)(?<!\s)([A-Z])', r' \1', name)`: a space goes before every
   * upper-case ASCII letter that is neither the first character nor preceded
   * by whitespace (the look-behinds read the original text).
   */
  function SplitWords(s: string): string {
    SplitWordsFrom(s, 0)
  }

  function SplitWordsFrom(s: string, i: nat): string
    requires i <= |s|
    decreases |s| - i
  {
    if i == |s| then []
    else if i > 0 && !IsSpace(s[i - 1]) && IsUpper(s[i]) then [' ', s[i]] + SplitWordsFrom(s, i + 1)
    else [s[i]] + SplitWordsFrom(s, i + 1)
  }

  /** The chain of `str.replace` calls on the spaced name. */
  function Underscored(s: string): string {
    var s1 := ReplaceAll(ReplaceAll(ReplaceAll(ReplaceAll(s, "Mega ", "MEGA_"), "Primal ", "PRIMAL_"), "Alolan ", "ALOLAN_"), "Galarian ", "GALARIAN_");
    ReplaceAll(ReplaceAll(ReplaceAll(ReplaceAll(s1, " ", "_"), "-", "_"), ".", ""), "'", "")
  }

  function FormatName(name: string): (r: string)
    ensures StartsWith(r, SpeciesPrefix)
    ensures Contains(name, "Nidoran\U{2640}") ==> r == "SPECIES_NIDORAN_F"
    ensures !Contains(name, "Nidoran\U{2640}") && Contains(name, "Nidoran\U{2642}") ==> r == "SPECIES_NIDORAN_M"
    ensures !Contains(name, "Nidoran\U{2640}") && !Contains(name, "Nidoran\U{2642}") && Contains(name, "Farfetch'd") ==> r == "SPECIES_FARFETCHD"
    ensures (!Contains(name, "Nidoran\U{2640}") && !Contains(name, "Nidoran\U{2642}") && !Contains(name, "Farfetch'd")
             && Contains(name, "Mr. Mime")) ==> r == "SPECIES_MR_MIME"
    ensures (!Contains(name, "Nidoran\U{2640}") && !Contains(name, "Nidoran\U{2642}") && !Contains(name, "Farfetch'd")
             && !Contains(name, "Mr. Mime") && Contains(name, "Mime Jr.")) ==> r == "SPECIES_MIME_JR"
    ensures ' ' !in r && '-' !in r && '.' !in r && '\'' !in r
  {
    if Contains(name, "Nidoran\U{2640}") then "SPECIES_NIDORAN_F"
    else if Contains(name, "Nidoran\U{2642}") then "SPECIES_NIDORAN_M"
    else if Contains(name, "Farfetch'd") then "SPECIES_FARFETCHD"
    else if Contains(name, "Mr. Mime") then "SPECIES_MR_MIME"
    else if Contains(name, "Mime Jr.") then "SPECIES_MIME_JR"
    else
      var u := Underscored(SplitWords(name));
      UnderscoredClean(SplitWords(name));
      UpperKeepsOut(u, ' ');
      UpperKeepsOut(u, '-');
      UpperKeepsOut(u, '.');
      UpperKeepsOut(u, '\'');
      SpeciesPrefix + Upper(u)
  }

  /** After the replacement chain no space, hyphen, full stop or apostrophe is left. */
  lemma UnderscoredClean(s: string)
    ensures ' ' !in Underscored(s) && '-' !in Underscored(s)
    ensures '.' !in Underscored(s) && '\'' !in Underscored(s)
  {
    var s1 := ReplaceAll(ReplaceAll(ReplaceAll(ReplaceAll(s, "Mega ", "MEGA_"), "Primal ", "PRIMAL_"), "Alolan ", "ALOLAN_"), "Galarian ", "GALARIAN_");
    var a := ReplaceAll(s1, " ", "_");
    var b := ReplaceAll(a, "-", "_");
    var c := ReplaceAll(b, ".", "");
    var d := ReplaceAll(c, "'", "");
    ReplaceCharRemoves(s1, ' ', "_", ' ');
    ReplaceCharRemoves(a, '-', "_", ' ');
    ReplaceCharRemoves(a, '-', "_", '-');
    ReplaceCharRemoves(b, '.', "", ' ');
    ReplaceCharRemoves(b, '.', "", '-');
    ReplaceCharRemoves(b, '.', "", '.');
    ReplaceCharRemoves(c, '\'', "", ' ');
    ReplaceCharRemoves(c, '\'', "", '-');
    ReplaceCharRemoves(c, '\'', "", '.');
    ReplaceCharRemoves(c, '\'', "", '\'');
  }

  /** A name without the characters of the five special names takes the general path. */
  lemma NoSpecialName(name: string)
    requires '\U{2640}' !in name && '\U{2642}' !in name && '\'' !in name && '.' !in name
    ensures !Contains(name, "Nidoran\U{2640}") && !Contains(name, "Nidoran\U{2642}")
    ensures !Contains(name, "Farfetch'd") && !Contains(name, "Mr. Mime") && !Contains(name, "Mime Jr.")
  {
    if Contains(name, "Nidoran\U{2640}") { ContainsChars(name, "Nidoran\U{2640}", '\U{2640}'); }
    if Contains(name, "Nidoran\U{2642}") { ContainsChars(name, "Nidoran\U{2642}", '\U{2642}'); }
    if Contains(name, "Farfetch'd") { ContainsChars(name, "Farfetch'd", '\''); }
    if Contains(name, "Mr. Mime") { ContainsChars(name, "Mr. Mime", '.'); }
    if Contains(name, "Mime Jr.") { ContainsChars(name, "Mime Jr.", '.'); }
  }
}
