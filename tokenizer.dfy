/**
 * The syllable tokenizer of the transliteration service: greedy
 * longest-match lookups in the spelling tables (findLongestMatch), the
 * syllable builder that fills the initial, vowel and final slots
 * (buildKoreanSyllable) and the loop that walks a Latin fragment syllable
 * by syllable (convertToKoreanSyllables).
 */
module Tokenizer {
  import opened Wrappers
  import opened Text
  import opened Hangul
  import opened JamoTables

  /** What findLongestMatch returns: the jamo found (the source's empty string when none) and how many characters matched. */
  datatype Match = Match(jamo: Option<char>, length: nat)

  /** What buildKoreanSyllable returns: the syllable and how many characters it used. */
  datatype Built = Built(korean: string, consumed: int)

  /** The spelling `text[start..start + len]` exists and is a key of `table`. */
  predicate KeyAt(text: string, start: nat, len: nat, table: map<string, char>) {
    start + len <= |text| && text[start..start + len] in table
  }

  /**
   * The spelling length findLongestMatch finds at `start`: the longest of
   * 4, 3, 2, 1 that stays inside the text and is a key, or 0 when none is.
   */
  function MatchLength(text: string, start: nat, table: map<string, char>): (n: nat)
    ensures n <= 4
    ensures n > 0 ==> KeyAt(text, start, n, table)
  {
    if KeyAt(text, start, 4, table) then 4
    else if KeyAt(text, start, 3, table) then 3
    else if KeyAt(text, start, 2, table) then 2
    else if KeyAt(text, start, 1, table) then 1
    else 0
  }

  /** Maximal munch: no spelling longer than the one found (up to four characters) is a key. */
  lemma MatchLengthIsLongest(text: string, start: nat, table: map<string, char>, l: nat)
    requires MatchLength(text, start, table) < l <= 4
    ensures !KeyAt(text, start, l, table)
  {
  }

  function LongestMatch(text: string, start: nat, table: map<string, char>): (m: Match)
    ensures m.length == MatchLength(text, start, table)
    ensures m.jamo.Some? <==> m.length > 0
    ensures m.jamo.Some? ==> m.jamo.value == table[text[start..start + m.length]]
  {
    var n := MatchLength(text, start, table);
    if n == 0 then Match(None, 0) else Match(Some(table[text[start..start + n]]), n)
  }

  /** findLongestMatch: tries lengths 4 down to 1 and stops at the first key. */
  method FindLongestMatch(text: string, startIndex: nat, mapping: map<string, char>) returns (m: Match)
    ensures m == LongestMatch(text, startIndex, mapping)
  {
    var bestMatch: Option<char> := None;
    var bestLength := 0;
    var len := 4;
    while len >= 1
      invariant 0 <= len <= 4
      invariant bestMatch == None && bestLength == 0
      invariant forall l :: len < l <= 4 ==> !KeyAt(text, startIndex, l, mapping)
      decreases len
    {
      if startIndex + len <= |text| {
        var substring := text[startIndex..startIndex + len];
        if substring in mapping {
          bestMatch := Some(mapping[substring]);
          bestLength := len;
          break;
        }
      }
      len := len - 1;
    }
    m := Match(bestMatch, bestLength);
  }

  /** `table[key]` as an optional value. */
  function Jamo(table: map<string, char>, key: string): Option<char> {
    if key in table then Some(table[key]) else None
  }

  function Max(a: int, b: int): int {
    if a >= b then a else b
  }

  /** Where the vowel search starts: after the initial consonant, if one matched. */
  function AfterInitial(tables: Spelling, text: string, start: nat): nat {
    start + MatchLength(text, start, tables.initials)
  }

  /** Where the final search starts: after the initial and the vowel that matched (a default vowel uses no input). */
  function AfterVowel(tables: Spelling, text: string, start: nat): nat {
    var i := AfterInitial(tables, text, start);
    i + MatchLength(text, i, tables.vowels)
  }

  /**
   * The length of the final consonant the builder commits: the final
   * spelling found after the vowel, kept only when the character after it
   * is absent or is not itself a vowel spelling; 0 otherwise.
   */
  function FinalLength(tables: Spelling, text: string, start: nat): (n: nat)
    ensures n > 0 ==> AfterVowel(tables, text, start) < |text|
    ensures n > 0 ==> n == MatchLength(text, AfterVowel(tables, text, start), tables.finals)
  {
    var i := AfterVowel(tables, text, start);
    if i < |text| then
      var n := MatchLength(text, i, tables.finals);
      if n > 0 && (i + n >= |text| || [text[i + n]] !in tables.vowels) then n else 0
    else 0
  }

  /** The vowel jamo the builder settles on: the matched one, else the single-character lookup, else ㅓ. */
  function VowelAt(tables: Spelling, text: string, start: nat): (v: char)
    requires start < |text|
  {
    var i := AfterInitial(tables, text, start);
    var vm := LongestMatch(text, i, tables.vowels);
    if vm.jamo.Some? then vm.jamo.value
    else if MatchLength(text, start, tables.initials) == 0 && [text[start]] in tables.vowels then tables.vowels[[text[start]]]
    else 'ㅓ'
  }

  /** The characters the initial and vowel stages use: an unmatched first character counts as one. */
  function HeadLength(tables: Spelling, text: string, start: nat): (n: nat)
    ensures n >= 1 || (MatchLength(text, start, tables.initials) > 0 && n == MatchLength(text, start, tables.initials))
  {
    var il := MatchLength(text, start, tables.initials);
    var vl := MatchLength(text, AfterInitial(tables, text, start), tables.vowels);
    if vl > 0 then il + vl
    else if il == 0 then 1
    else il
  }

  /**
   * The syllable buildKoreanSyllable produces at `start`: the initial (or
   * ㅇ), the vowel of `VowelAt` and the committed final, composed into one
   * precomposed syllable, with the characters used (at least one).  The
   * source's empty result for a missing vowel cannot arise, since a vowel
   * is always chosen.
   */
  function SyllableAt(tables: Spelling, text: string, start: nat): (b: Built)
    requires start < |text|
    ensures |b.korean| == 1 && IsSyllable(b.korean[0])
    ensures b.consumed >= 1
  {
    var korean := CombineHangulComponents(InitialAt(tables, text, start), VowelAt(tables, text, start), FinalAt(tables, text, start));
    Built([korean], Max(HeadLength(tables, text, start) + FinalLength(tables, text, start), 1))
  }

  /** The initial jamo of the syllable at `start`: the matched one, or ㅇ. */
  function InitialAt(tables: Spelling, text: string, start: nat): char {
    var im := LongestMatch(text, start, tables.initials);
    if im.jamo.Some? then im.jamo.value else 'ㅇ'
  }

  /** The committed final jamo of the syllable at `start`, if any. */
  function FinalAt(tables: Spelling, text: string, start: nat): (f: Option<char>)
    ensures f.Some? <==> FinalLength(tables, text, start) > 0
  {
    var j := AfterVowel(tables, text, start);
    var fl := FinalLength(tables, text, start);
    if fl > 0 then Some(tables.finals[text[j..j + fl]]) else None
  }

  /** The final stage: the final match after the vowel is committed unless a vowel spelling follows it. */
  lemma FinalStage(tables: Spelling, text: string, start: nat, m: Match)
    requires AfterVowel(tables, text, start) < |text|
    requires m == LongestMatch(text, AfterVowel(tables, text, start), tables.finals)
    ensures var i := AfterVowel(tables, text, start);
            var keep := m.jamo.Some? && (i + m.length >= |text| || [text[i + m.length]] !in tables.vowels);
            FinalAt(tables, text, start) == (if keep then m.jamo else None) &&
            FinalLength(tables, text, start) == (if keep then m.length else 0)
  {
  }

  /** buildKoreanSyllable, with the locals of the source updated stage by stage. */
  method BuildKoreanSyllable(tables: Spelling, text: string, startIndex: nat) returns (b: Built)
    requires startIndex < |text|
    ensures b == SyllableAt(tables, text, startIndex)
  {
    var i := startIndex;
    var initial: Option<char> := None;
    var vowel: Option<char> := None;
    var final: Option<char> := None;
    var consumed := 0;

    var consonantMatch := FindLongestMatch(text, i, tables.initials);
    if consonantMatch.jamo.Some? {
      initial := consonantMatch.jamo;
      i := i + consonantMatch.length;
      consumed := consumed + consonantMatch.length;
    }

    assert i == AfterInitial(tables, text, startIndex);
    var vowelMatch := FindLongestMatch(text, i, tables.vowels);
    if vowelMatch.jamo.Some? {
      vowel := vowelMatch.jamo;
      i := i + vowelMatch.length;
      consumed := consumed + vowelMatch.length;
    } else if initial.None? {
      var c := text[i];
      if [c] in tables.vowels {
        vowel := Some(tables.vowels[[c]]);
        consumed := 1;
      } else {
        vowel := Some('ㅓ');
        consumed := 1;
      }
    } else {
      vowel := Some('ㅓ');
    }

    assert i == AfterVowel(tables, text, startIndex);
    assert vowel == Some(VowelAt(tables, text, startIndex));
    assert consumed == HeadLength(tables, text, startIndex);
    ghost var fl := FinalLength(tables, text, startIndex);
    if i < |text| {
      var finalMatch := FindLongestMatch(text, i, tables.finals);
      FinalStage(tables, text, startIndex, finalMatch);
      if finalMatch.jamo.Some? {
        if i + finalMatch.length >= |text| || [text[i + finalMatch.length]] !in tables.vowels {
          final := finalMatch.jamo;
          consumed := consumed + finalMatch.length;
        }
      }
    }

    assert final == FinalAt(tables, text, startIndex);
    assert consumed == HeadLength(tables, text, startIndex) + fl;
    assert (if initial.Some? then initial.value else 'ㅇ') == InitialAt(tables, text, startIndex);
    if vowel.None? {
      b := Built("", 0);
    } else {
      var korean := CombineHangulComponents(if initial.Some? then initial.value else 'ㅇ', vowel.value, final);
      b := Built([korean], Max(consumed, 1));
    }
  }

  /** Where no initial spelling matches, no final spelling matches either. */
  lemma NoInitialMeansNoFinal(tables: Spelling, text: string, i: nat)
    requires WellFormed(tables)
    ensures MatchLength(text, i, tables.initials) == 0 ==> MatchLength(text, i, tables.finals) == 0
  {
    var n := MatchLength(text, i, tables.finals);
    if n > 0 {
      var k := text[i..i + n];
      assert text[i..i + 1] == [k[0]];
      assert KeyAt(text, i, 1, tables.initials);
    }
  }

  /** The builder never uses more characters than remain, so the tokenizer never skips past the end. */
  lemma SyllableWithinText(tables: Spelling, text: string, start: nat)
    requires WellFormed(tables) && start < |text|
    ensures SyllableAt(tables, text, start).consumed <= |text| - start
  {
    NoInitialMeansNoFinal(tables, text, start);
  }

  /** A character that starts no initial and no vowel spelling becomes 어 (ㅇ + ㅓ) and is used up alone. */
  lemma UnmatchedCharacterBecomesEo(tables: Spelling, text: string, start: nat)
    requires WellFormed(tables) && start < |text|
    requires MatchLength(text, start, tables.initials) == 0 && MatchLength(text, start, tables.vowels) == 0
    ensures SyllableAt(tables, text, start) == Built("어", 1)
  {
    NoInitialMeansNoFinal(tables, text, start);
    assert !KeyAt(text, start, 1, tables.vowels);
    assert text[start..start + 1] == [text[start]];
  }

  /** A consonant spelling with no vowel after it gets the default vowel ㅓ, and the vowel uses no input. */
  lemma ConsonantGetsDefaultVowel(tables: Spelling, text: string, start: nat)
    requires start < |text|
    requires MatchLength(text, start, tables.initials) > 0
    requires MatchLength(text, AfterInitial(tables, text, start), tables.vowels) == 0
    ensures VowelIndex(SyllableAt(tables, text, start).korean[0]) == 4
    ensures SyllableAt(tables, text, start).consumed
         == MatchLength(text, start, tables.initials) + FinalLength(tables, text, start)
  {
    CombineDecomposes(InitialAt(tables, text, start), VowelAt(tables, text, start), FinalAt(tables, text, start));
  }

  /**
   * The shape of every syllable the builder makes: its initial index is the
   * code of the matched initial (or of ㅇ), its vowel is never ㅡ (index 18),
   * and it has a final exactly when a final spelling was committed.
   */
  lemma SyllableShape(tables: Spelling, text: string, start: nat)
    requires WellFormed(tables) && start < |text|
    ensures InitialIndex(SyllableAt(tables, text, start).korean[0]) == InitialConsonantCode(InitialAt(tables, text, start))
    ensures VowelIndex(SyllableAt(tables, text, start).korean[0]) != 18
    ensures FinalIndex(SyllableAt(tables, text, start).korean[0]) != 0 <==> FinalLength(tables, text, start) > 0
  {
    CombineDecomposes(InitialAt(tables, text, start), VowelAt(tables, text, start), FinalAt(tables, text, start));
  }

  /**
   * What convertToKoreanSyllables produces from position `i` on: nothing at
   * the end of the text, otherwise the syllables from `SyllableThenRest`.
   * Never more syllables than characters left, at least one for a non-empty
   * remainder, and only precomposed syllables.
   */
  function SyllablesFrom(tables: Spelling, text: string, i: nat): (r: string)
    ensures AllSyllables(r)
    ensures i <= |text| ==> |r| <= |text| - i
    ensures i < |text| ==> |r| >= 1
    decreases |text| - i, 1
  {
    if i >= |text| then "" else SyllableThenRest(tables, text, i)
  }

  /**
   * One builder step at a position that still has text: the syllable built
   * there, then the syllables after the characters it used.  The builder
   * always returns a syllable, so the source's `i++` branch for an empty
   * one never runs.
   */
  function SyllableThenRest(tables: Spelling, text: string, i: nat): (r: string)
    requires i < |text|
    ensures AllSyllables(r)
    ensures 1 <= |r| <= |text| - i
    decreases |text| - i, 0
  {
    var b := SyllableAt(tables, text, i);
    b.korean + SyllablesFrom(tables, text, i + b.consumed)
  }

  /** One step of the tokenizer: the syllable built at `i`, then the rest after the characters it used. */
  lemma SyllablesFromStep(tables: Spelling, text: string, i: nat)
    requires i < |text|
    ensures SyllablesFrom(tables, text, i)
         == SyllableAt(tables, text, i).korean + SyllablesFrom(tables, text, i + SyllableAt(tables, text, i).consumed)
  {
  }

  /** The loop invariant of convertToKoreanSyllables: the syllables pushed so far, then those still to come from `i`, are the whole result. */
  ghost predicate TokenizerInvariant(tables: Spelling, text: string, syllables: seq<string>, i: nat) {
    Join(syllables, "") + SyllablesFrom(tables, text, i) == Syllables(tables, text)
  }

  /** The loop invariant survives pushing the syllable built at `i` and moving past the characters it used. */
  lemma TokenizerStep(tables: Spelling, text: string, i: nat, syllables: seq<string>)
    requires i < |text|
    requires TokenizerInvariant(tables, text, syllables, i)
    ensures TokenizerInvariant(tables, text, syllables + [SyllableAt(tables, text, i).korean], i + SyllableAt(tables, text, i).consumed)
  {
    SyllablesFromStep(tables, text, i);
    ConcatAppend(syllables, SyllableAt(tables, text, i).korean);
  }

  /** At the end of the text nothing is left to come, so the pushed syllables are the whole result. */
  lemma TokenizerDone(tables: Spelling, text: string, i: nat, syllables: seq<string>)
    requires i >= |text|
    requires TokenizerInvariant(tables, text, syllables, i)
    ensures Join(syllables, "") == Syllables(tables, text)
  {
    assert SyllablesFrom(tables, text, i) == "";
    assert Join(syllables, "") + "" == Join(syllables, "");
  }

  /** convertToKoreanSyllables as a function of the fragment. */
  function Syllables(tables: Spelling, text: string): (r: string)
    ensures AllSyllables(r)
    ensures |r| <= |text|
    ensures |r| == 0 <==> |text| == 0
  {
    SyllablesFrom(tables, text, 0)
  }

  /** The syllable built at `i` is not 으 (ㅇ + ㅡ), since its vowel is never ㅡ. */
  lemma SyllableIsNotEu(tables: Spelling, text: string, i: nat)
    requires WellFormed(tables) && i < |text|
    ensures '으' !in SyllableAt(tables, text, i).korean
  {
    SyllableShape(tables, text, i);
    assert VowelIndex('으') == 18;
  }

  /** The syllable 으 never appears in what the tokenizer produces from `i` on. */
  lemma {:induction false} NoEuFrom(tables: Spelling, text: string, i: nat)
    requires WellFormed(tables)
    ensures '으' !in SyllablesFrom(tables, text, i)
    decreases |text| - i
  {
    if i < |text| {
      SyllableIsNotEu(tables, text, i);
      SyllablesFromStep(tables, text, i);
      NoEuFrom(tables, text, i + SyllableAt(tables, text, i).consumed);
    }
  }

  /** So convertToKoreanSyllables never outputs 으. */
  lemma SyllablesAvoidEu(tables: Spelling, text: string)
    requires WellFormed(tables)
    ensures '으' !in Syllables(tables, text)
  {
    NoEuFrom(tables, text, 0);
  }

  /** convertToKoreanSyllables: the while loop over `i`, pushing each syllable and joining at the end. */
  method ConvertToKoreanSyllables(tables: Spelling, text: string) returns (r: string)
    ensures r == Syllables(tables, text)
  {
    var syllables: seq<string> := [];
    var i := 0;
    while i < |text|
      invariant i >= 0 && TokenizerInvariant(tables, text, syllables, i)
      decreases |text| - i
    {
      var syllable := BuildKoreanSyllable(tables, text, i);
      if syllable.korean != "" {
        TokenizerStep(tables, text, i, syllables);
        syllables := syllables + [syllable.korean];
        i := i + syllable.consumed;
      } else {
        // Unreachable: the builder always returns one syllable.
        assert false;
        i := i + 1;
      }
    }
    TokenizerDone(tables, text, i, syllables);
    r := Join(syllables, "");
  }
}
