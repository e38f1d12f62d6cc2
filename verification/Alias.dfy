/** Alias generation of src/snarkyctl/static/dashboard.js. */
module Alias {
  import opened Prelude
  import opened Slug
  import Numerals

  const MAX_ALIAS := 32
  const MAX_TARGETS := 100

  predicate Letter(c: char) { 'a' <= c <= 'z' }

  predicate Alphanumeric(c: char) { Kept(false, c) }

  /** The stored-alias pattern ^[a-z][a-z0-9_-]{0,31}$. */
  predicate IsAlias(text: string) {
    1 <= |text| <= MAX_ALIAS && Letter(text[0]) && forall c :: c in text ==> Alphanumeric(c) || c == '_' || c == '-'
  }

  function Prefix(text: string, n: nat): string {
    if |text| <= n then text else text[..n]
  }

  /** At most n characters, and no underscore at the end. */
  function Shortened(text: string, n: nat): (short: string)
    ensures short <= text && |short| <= n
    ensures short != [] ==> short[|short| - 1] != '_'
    ensures n > 0 && text != [] && text[0] != '_' ==> short != []
  {
    StripEnd(Prefix(text, n))
  }

  lemma ShortenedFits(text: string)
    requires text != [] && Letter(text[0]) && Collapsed(text)
    ensures var short := Shortened(text, MAX_ALIAS); short != [] && IsAlias(short) && Collapsed(short)
  {
    assert forall c :: c in Shortened(text, MAX_ALIAS) ==> c in text;
  }

  /** Lower-case letters, digits and underscores. */
  predicate Collapsed(text: string) { Within(false, text) }

  const FALLBACK := "target"

  lemma FallbackFits()
    ensures FALLBACK != [] && IsAlias(FALLBACK) && Collapsed(FALLBACK) && Neat(FALLBACK) && Bare(FALLBACK)
  {
    assert FALLBACK == ['t', 'a', 'r', 'g', 'e', 't'];
  }

  /** Other characters collapsed, underscores stripped at the ends, and not empty. */
  function Trimmed(lowered: string): (text: string)
    ensures text != [] && Collapsed(text) && Bare(text)
  {
    var slug := Slugged(false, lowered);
    FallbackFits();
    if slug == "" then FALLBACK else slug
  }

  /** A leading digit gets a word in front. */
  function Lettered(text: string): (lettered: string)
    requires text != [] && Collapsed(text)
    ensures lettered != [] && Collapsed(lettered) && Letter(lettered[0])
  {
    if Letter(text[0]) then text else "target_" + text
  }

  /** normalizedAlias, from the text left by Unicode decomposition and lower-casing on. Every
      label gives a valid alias that does not end in an underscore. */
  function NormalizedAlias(lowered: string): (alias: string)
    ensures IsAlias(alias) && Collapsed(alias) && alias[|alias| - 1] != '_'
  {
    var lettered := Lettered(Trimmed(lowered));
    var cut := Shortened(lettered, MAX_ALIAS);
    ShortenedFits(lettered);
    FallbackFits();
    if cut == "" then FALLBACK else cut
  }

  lemma TrimmedIsNeat(lowered: string)
    ensures Neat(Trimmed(lowered))
  {
    SluggedIsNeat(false, lowered);
    FallbackFits();
  }

  lemma LetteredIsNeat(text: string)
    requires text != [] && Collapsed(text) && Neat(text) && text[0] != '_'
    ensures Neat(Lettered(text))
  {
    var word := "target";
    assert Neat(word) && '_' !in word;
    var lettered := word + ['_'] + text;
    assert lettered == "target_" + text;
    forall i | 0 <= i < |lettered| - 1 ensures lettered[i] != '_' || lettered[i + 1] != '_' {
      if i < 6 {
        assert word[i] in word;
      } else if i > 6 {
        assert lettered[i] == text[i - 7] && lettered[i + 1] == text[i - 6];
      }
    }
  }

  /** What normalisation leaves has single underscores only. */
  lemma NormalizedIsNeat(lowered: string)
    ensures Neat(NormalizedAlias(lowered))
  {
    var lettered := Lettered(Trimmed(lowered));
    TrimmedIsNeat(lowered);
    LetteredIsNeat(Trimmed(lowered));
    SliceIsNeat(lettered, 0, |Prefix(lettered, MAX_ALIAS)|);
    EndIsNeat(Prefix(lettered, MAX_ALIAS));
    FallbackFits();
  }

  /** Normalising leaves a text as it is exactly when it is a valid alias with single inner
      underscores; since it only yields such aliases, it is idempotent. */
  lemma NormalizedFixpoints(text: string)
    ensures NormalizedAlias(text) == text <==> IsAlias(text) && Collapsed(text) && Neat(text) && text[|text| - 1] != '_'
    ensures NormalizedAlias(NormalizedAlias(text)) == NormalizedAlias(text)
  {
    NormalizedIsNeat(text);
    NeatIsNormal(NormalizedAlias(text));
    if IsAlias(text) && Collapsed(text) && Neat(text) && text[|text| - 1] != '_' { NeatIsNormal(text); }
  }

  lemma NeatIsNormal(text: string)
    requires IsAlias(text) && Collapsed(text) && Neat(text) && text[|text| - 1] != '_'
    ensures NormalizedAlias(text) == text
  {
    SlugFixpoints(false, text);
    assert StripEnd(text) == text;
  }

  /** What normalising makes of a slug: a word in front unless it starts with a letter, then at most
      32 characters, of which only underscores were cut off the end. */
  lemma NormalizedExactly(lowered: string)
    ensures var slug, alias := Slugged(false, lowered), NormalizedAlias(lowered);
      if slug == "" then alias == "target"
      else
        var full := if Letter(slug[0]) then slug else "target_" + slug;
        CutTo(alias, full, MAX_ALIAS)
  {
    var slug := Slugged(false, lowered);
    if slug == "" {
      FallbackFits();
      assert StripEnd(FALLBACK) == FALLBACK;
    } else {
      ShortenedIsCut(Lettered(slug), MAX_ALIAS);
      ShortenedFits(Lettered(slug));
    }
  }

  /** `short` is the first n characters of a text, without the underscores at their end. */
  ghost predicate CutTo(short: string, text: string, n: nat) {
    && (short != "" ==> short[|short| - 1] != '_')
    && exists tail :: Underscores(tail) && short + tail == if |text| <= n then text else text[..n]
  }

  ghost predicate Underscores(tail: string) { forall c :: c in tail ==> c == '_' }

  lemma ShortenedIsCut(text: string, n: nat)
    ensures CutTo(Shortened(text, n), text, n)
  {
    EndDropsUnderscores(Prefix(text, n));
    var tail :| Prefix(text, n) == StripEnd(Prefix(text, n)) + tail && forall c :: c in tail ==> c == '_';
    assert Underscores(tail) && Shortened(text, n) + tail == Prefix(text, n);
  }

  /** The n-th alternative: as much of the base as leaves room for the number, without trailing
      underscores, then an underscore and the number. */
  lemma CandidateExactly(base: string, n: nat)
    requires n < 10000
    ensures |Numerals.Print(n, 10)| <= 4
    ensures var number := Numerals.Print(n, 10);
      exists stem :: CutTo(stem, base, MAX_ALIAS - 1 - |number|) && Candidate(base, n) == stem + "_" + number
  {
    var number := Numerals.Print(n, 10);
    Numerals.PrintShort(n);
    ShortenedIsCut(base, MAX_ALIAS - 1 - |number|);
    assert Candidate(base, n) == Stem(base, n) + "_" + number && |"_" + number| == 1 + |number|;
  }

  function Stem(base: string, n: nat): string {
    var suffix := |"_" + Numerals.Print(n, 10)|;
    Shortened(base, if suffix <= MAX_ALIAS then MAX_ALIAS - suffix else 0)
  }

  /** The n-th alternative: a shortened stem without trailing underscores, then `_n`. */
  function Candidate(base: string, n: nat): string {
    Stem(base, n) + "_" + Numerals.Print(n, 10)
  }

  lemma DigitsAreAlphanumeric(n: nat)
    ensures forall c :: c in Numerals.Print(n, 10) ==> Alphanumeric(c)
  {
    assert Numerals.DIGITS[..10] == "0123456789";
  }

  /** What follows the last underscore of a text is unique. */
  lemma TailsDiffer(stem1: string, tail1: string, stem2: string, tail2: string)
    requires '_' !in tail2 && |tail1| < |tail2|
    ensures stem1 + "_" + tail1 != stem2 + "_" + tail2
  {
    var left, right := stem1 + "_" + tail1, stem2 + "_" + tail2;
    assert left[|stem1|] == '_';
    if |left| == |right| {
      var at := |stem1| - |stem2| - 1;
      assert right[|stem1|] == tail2[at];
      assert tail2[at] in tail2;
    }
  }

  /** Suffixing is injective although stems are truncated and stripped. */
  lemma CandidateInjective(base: string, m: nat, n: nat)
    requires Candidate(base, m) == Candidate(base, n)
    ensures m == n
  {
    var left, right := Numerals.Print(m, 10), Numerals.Print(n, 10);
    DigitsAreAlphanumeric(m);
    DigitsAreAlphanumeric(n);
    var stem1, stem2 := Stem(base, m), Stem(base, n);
    if |left| < |right| { TailsDiffer(stem1, left, stem2, right); }
    if |right| < |left| { TailsDiffer(stem2, right, stem1, left); }
    var text := stem1 + "_" + left;
    assert left == text[|text| - |left|..] && right == text[|text| - |left|..];
    Numerals.PrintInjective(m, n, 10);
  }

  lemma CandidateIsAlias(base: string, n: nat)
    requires IsAlias(base) && n < 10000
    ensures IsAlias(Candidate(base, n))
  {
    Numerals.PrintShort(n);
    DigitsAreAlphanumeric(n);
    var stem := Stem(base, n);
    assert stem != [] && stem <= base;
    assert forall c :: c in stem ==> c in base;
  }

  /** `alias` is the n-th alternative and all earlier ones are taken. */
  ghost predicate FirstFree(used: set<string>, base: string, alias: string, n: nat) {
    && alias == Candidate(base, n) && alias !in used
    && forall m: nat :: 2 <= m < n ==> Candidate(base, m) in used
  }

  /** Pigeonhole for alternatives: n taken ones need n used names. */
  lemma TakenCandidates(base: string, n: nat, used: set<string>)
    requires forall m: nat :: 2 <= m < n + 2 ==> Candidate(base, m) in used
    ensures n <= |used|
  {
    var name := (m: nat) => Candidate(base, m);
    forall i: nat, j: nat | name(i) == name(j) ensures i == j { CandidateInjective(base, i, j); }
    NamedAre(name, 2, n);
    TakenNames(name, 2, n, used);
  }

  /** The search loop. By counting, it looks at no more than |used| + 1 alternatives. */
  method FirstFreeCandidate(used: set<string>, base: string) returns (alias: string)
    ensures exists n: nat :: 2 <= n <= |used| + 2 && FirstFree(used, base, alias, n)
  {
    var sequence := 2;
    while true
      invariant 2 <= sequence <= |used| + 2
      invariant forall m: nat :: 2 <= m < sequence ==> Candidate(base, m) in used
      decreases |used| + 2 - sequence
    {
      var candidate := Candidate(base, sequence);
      if candidate !in used {
        assert FirstFree(used, base, candidate, sequence);
        return candidate;
      }
      sequence := sequence + 1;
      TakenCandidates(base, sequence - 2, used);
    }
  }

  /** The aliases that may not be taken; empty ones are skipped. */
  function Used(others: seq<string>): (used: set<string>)
    ensures |used| <= |others| + 1
    ensures forall item :: item in used <==> item == "recommended" || (item in others && item != "")
  {
    if others == [] then {"recommended"}
    else
      var last := others[|others| - 1];
      Used(others[..|others| - 1]) + if last == "" then {} else {last}
  }

  /** uniqueAlias against the aliases of the other targets. It returns the normalised label, or
      else the first free alternative; the result is always valid, unused and not the built-in alias. */
  method UniqueAlias(others: seq<string>, lowered: string) returns (alias: string)
    requires |others| <= MAX_TARGETS
    ensures IsAlias(alias) && alias != "recommended" && alias !in others
    ensures NormalizedAlias(lowered) !in Used(others) ==> alias == NormalizedAlias(lowered)
    ensures NormalizedAlias(lowered) in Used(others) ==>
      exists n: nat :: 2 <= n <= |Used(others)| + 2 && FirstFree(Used(others), NormalizedAlias(lowered), alias, n)
  {
    var used := {"recommended"};
    for i := 0 to |others|
      invariant used == Used(others[..i])
    {
      assert others[..i + 1][..i] == others[..i];
      if others[i] != "" { used := used + {others[i]}; }
    }
    assert others[..|others|] == others;
    var base := NormalizedAlias(lowered);
    if base !in used { return base; }
    alias := FirstFreeCandidate(used, base);
    ghost var n: nat :| 2 <= n <= |used| + 2 && FirstFree(used, base, alias, n);
    CandidateIsAlias(base, n);
  }
}
