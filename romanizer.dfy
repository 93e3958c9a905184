/**
 * generateRomanization of the transliteration service: every precomposed
 * syllable is split into its three slot indices by inverting the
 * composition formula, each slot is looked up in the service's Latin
 * table (loosely the Revised Romanization of Korean, Chapter 2, Articles
 * 1 and 2), the final goes through the service's own coda table, any other
 * character is copied, and the whole result is lower-cased.
 */
module Romanizer {
  import opened Wrappers
  import opened Text
  import opened Hangul

  predicate IsLowerAscii(c: char) {
    'a' <= c <= 'z'
  }

  /** Lower-case ASCII letters only. */
  predicate LowerAscii(s: string) {
    forall k :: 0 <= k < |s| ==> IsLowerAscii(s[k])
  }

  /** romanizationMap: compatibility jamo to Latin, `None` where the record has no entry. */
  function RomanOf(jamo: char): (r: Option<string>)
    ensures r.Some? ==> LowerAscii(r.value)
  {
    match jamo
    case 'ㄱ' => Some("g") case 'ㄴ' => Some("n") case 'ㄷ' => Some("d") case 'ㄹ' => Some("r")
    case 'ㅁ' => Some("m") case 'ㅂ' => Some("b") case 'ㅅ' => Some("s") case 'ㅇ' => Some("")
    case 'ㅈ' => Some("j") case 'ㅊ' => Some("ch") case 'ㅋ' => Some("k") case 'ㅌ' => Some("t")
    case 'ㅍ' => Some("p") case 'ㅎ' => Some("h")
    case 'ㅏ' => Some("a") case 'ㅐ' => Some("ae") case 'ㅑ' => Some("ya") case 'ㅒ' => Some("yae")
    case 'ㅓ' => Some("eo") case 'ㅔ' => Some("e") case 'ㅕ' => Some("yeo") case 'ㅖ' => Some("ye")
    case 'ㅗ' => Some("o") case 'ㅘ' => Some("wa") case 'ㅙ' => Some("wae") case 'ㅚ' => Some("oe")
    case 'ㅛ' => Some("yo") case 'ㅜ' => Some("u") case 'ㅝ' => Some("wo") case 'ㅞ' => Some("we")
    case 'ㅟ' => Some("wi") case 'ㅠ' => Some("yu") case 'ㅡ' => Some("eu") case 'ㅢ' => Some("ui")
    case 'ㅣ' => Some("i")
    case _ => None
  }

  /** `romanizationMap[x] || ''`: a missing entry reads as the empty string. */
  function OrEmpty(r: Option<string>): (s: string)
    ensures r.Some? ==> s == r.value
    ensures r.None? ==> s == ""
  {
    if r.Some? then r.value else ""
  }

  /** initialChars: the jamo of each initial index. */
  const InitialJamo: seq<char> :=
    ['ㄱ', 'ㄲ', 'ㄴ', 'ㄷ', 'ㄸ', 'ㄹ', 'ㅁ', 'ㅂ', 'ㅃ', 'ㅅ', 'ㅆ', 'ㅇ', 'ㅈ', 'ㅉ', 'ㅊ', 'ㅋ', 'ㅌ', 'ㅍ', 'ㅎ']

  /** vowelChars: the jamo of each vowel index. */
  const VowelJamo: seq<char> :=
    ['ㅏ', 'ㅐ', 'ㅑ', 'ㅒ', 'ㅓ', 'ㅔ', 'ㅕ', 'ㅖ', 'ㅗ', 'ㅘ', 'ㅙ', 'ㅚ', 'ㅛ', 'ㅜ', 'ㅝ', 'ㅞ', 'ㅟ', 'ㅠ', 'ㅡ', 'ㅢ', 'ㅣ']

  /**
   * finalChars without its first entry (the empty string, "no final",
   * which is never looked up): final index `t >= 1` is `FinalJamo[t - 1]`.
   */
  const FinalJamo: seq<char> :=
    ['ㄱ', 'ㄲ', 'ㄳ', 'ㄴ', 'ㄵ', 'ㄶ', 'ㄷ', 'ㄹ', 'ㄺ', 'ㄻ', 'ㄼ', 'ㄽ', 'ㄾ', 'ㄿ', 'ㅀ', 'ㅁ', 'ㅂ', 'ㅄ', 'ㅅ', 'ㅆ', 'ㅇ', 'ㅈ', 'ㅊ', 'ㅋ', 'ㅌ', 'ㅍ', 'ㅎ']

  function InitialRoman(l: int): (r: string)
    requires 0 <= l < InitialCount
    ensures LowerAscii(r)
  {
    OrEmpty(RomanOf(InitialJamo[l]))
  }

  function VowelRoman(v: int): (r: string)
    requires 0 <= v < VowelCount
    ensures LowerAscii(r)
  {
    OrEmpty(RomanOf(VowelJamo[v]))
  }

  /** `finalRoman`: the table entry of the final's jamo, `''` when there is no final. */
  function FinalRoman(t: int): (r: string)
    requires 0 <= t < FinalCount
    ensures LowerAscii(r)
  {
    if t > 0 then OrEmpty(RomanOf(FinalJamo[t - 1])) else ""
  }

  /**
   * `finalPronunciation`: the chain of overrides, falling back to
   * `finalRoman`.  Its first group, finals read as "k", is 1, 2 and
   * `thirdK`: the code tests 8 (ㄹ in finalChars) where its comment names
   * ㄺ, which is 9.
   */
  function PronunciationChain(t: int, thirdK: int): (r: string)
    requires 0 <= t < FinalCount
    ensures LowerAscii(r)
  {
    if t == 1 || t == 2 || t == thirdK then "k"
    else if t == 4 || t == 5 || t == 6 then "n"
    else if t == 7 then "t"
    else if t == 17 || t == 18 then "p"
    else if t == 19 || t == 20 then "t"
    else if t == 22 || t == 23 || t == 24 || t == 25 || t == 26 || t == 27 then "t"
    else FinalRoman(t)
  }

  /** `finalPronunciation` as the source computes it: ㄹ (8) reads "k" and ㄺ (9) falls through to its empty table entry. */
  function FinalPronunciation(t: int): (r: string)
    requires 0 <= t < FinalCount
    ensures LowerAscii(r)
  {
    PronunciationChain(t, 8)
  }

  /** The final pronunciation as the comment intends: ㄱ, ㄲ and ㄺ read "k". */
  function FinalPronunciationIntended(t: int): (r: string)
    requires 0 <= t < FinalCount
    ensures LowerAscii(r)
  {
    PronunciationChain(t, 9)
  }

  /**
   * The coda sound of each final index, grouped by sound: the "k" group is
   * ㄱ, ㄲ, ㄺ; ㄹ keeps its table letter "r"; the other compound finals,
   * ㄳ and ㅇ have no entry in the table and are silent.
   */
  function CodaSound(t: int): string {
    if t in {1, 2, 9} then "k"
    else if t == 8 then "r"
    else if t in {4, 5, 6} then "n"
    else if t in {7, 19, 20, 22, 23, 24, 25, 26, 27} then "t"
    else if t in {17, 18} then "p"
    else if t == 16 then "m"
    else ""
  }

  /** The intended override chain and the table together give exactly the coda groups. */
  lemma FinalPronunciationIsCoda(t: int)
    requires 0 <= t < FinalCount
    ensures FinalPronunciationIntended(t) == CodaSound(t)
  {
  }

  /** The chain the source runs differs from the intended one exactly at ㄹ (read "k") and ㄺ (silent). */
  lemma RieulReadAsK(t: int)
    requires 0 <= t < FinalCount
    ensures FinalPronunciation(t) == (if t == 8 then "k" else if t == 9 then "" else FinalPronunciationIntended(t))
    ensures FinalJamo[8 - 1] == 'ㄹ' && FinalJamo[9 - 1] == 'ㄺ'
  {
  }

  /** So the source's chain gives the coda groups except that ㄹ reads "k" and ㄺ is silent. */
  lemma FinalPronunciationAsCoda(t: int)
    requires 0 <= t < FinalCount
    ensures FinalPronunciation(t) == (if t == 8 then "k" else if t == 9 then "" else CodaSound(t))
  {
    RieulReadAsK(t);
    FinalPronunciationIsCoda(t);
  }

  /** The double initials (ㄲ ㄸ ㅃ ㅆ ㅉ, absent from the map) and ㅇ are silent, and only they. */
  lemma SilentInitials(l: int)
    requires 0 <= l < InitialCount
    ensures InitialRoman(l) == "" <==> l in {1, 4, 8, 10, 11, 13}
  {
  }

  /** Every vowel has a non-empty romanization. */
  lemma VowelsAreVoiced(v: int)
    requires 0 <= v < VowelCount
    ensures VowelRoman(v) != ""
  {
  }

  /** One syllable: initial, vowel and final pronunciation (with the given "k" group), in lower-case ASCII letters. */
  function SyllableRomanWith(c: char, thirdK: int): (r: string)
    requires IsSyllable(c)
    ensures r != []
    ensures LowerAscii(r)
  {
    DecomposeCompose(c);
    VowelsAreVoiced(VowelIndex(c));
    InitialRoman(InitialIndex(c)) + VowelRoman(VowelIndex(c)) + PronunciationChain(FinalIndex(c), thirdK)
  }

  /** What one character contributes before lower-casing, with the source's "k" group 1, 2, 8. */
  function CharRoman(c: char): string {
    if IsSyllable(c) then SyllableRomanWith(c, 8) else [c]
  }

  /** What one character contributes before lower-casing, with the intended "k" group 1, 2, 9. */
  function CharRomanIntended(c: char): string {
    if IsSyllable(c) then SyllableRomanWith(c, 9) else [c]
  }

  /** The `result` that the loop builds from the characters of `s`, before lower-casing. */
  function Romanized(s: string): string {
    FlatMap(CharRoman, s)
  }

  /** What generateRomanization returns. */
  function Romanization(korean: string): string {
    Lower(Romanized(korean))
  }

  /** What generateRomanization would return with the intended "k" group, ㄹ read as "r". */
  function RomanizationIntended(korean: string): string {
    Lower(FlatMap(CharRomanIntended, korean))
  }

  /** generateRomanization: the loop over the characters, then `toLowerCase`. */
  method GenerateRomanization(korean: string) returns (r: string)
    ensures r == Romanization(korean)
  {
    var result := "";
    for i := 0 to |korean|
      invariant result == Romanized(korean[..i])
    {
      assert korean[..i + 1][..i] == korean[..i];
      result := result + CharRoman(korean[i]);
    }
    assert korean[..|korean|] == korean;
    r := Lower(result);
  }

  /** Romanization works character by character: it distributes over concatenation. */
  lemma RomanizedConcat(a: string, b: string)
    ensures Romanized(a + b) == Romanized(a) + Romanized(b)
  {
    FlatMapConcat(CharRoman, a, b);
  }

  /** A string of syllables romanizes to lower-case ASCII letters only, which `toLowerCase` keeps. */
  lemma {:induction false} SyllablesRomanizeLowercase(s: string)
    requires AllSyllables(s)
    ensures LowerAscii(Romanized(s))
    ensures Romanization(s) == Romanized(s)
    decreases |s|
  {
    if s != [] {
      SyllablesRomanizeLowercase(s[..|s| - 1]);
    }
    LowerOfNoUpper(Romanized(s));
  }

  /** Text without precomposed syllables is only lower-cased. */
  lemma {:induction false} NonHangulPassesThrough(s: string)
    requires forall k :: 0 <= k < |s| ==> !IsSyllable(s[k])
    ensures Romanized(s) == s
    ensures Romanization(s) == Lower(s)
    decreases |s|
  {
    if s != [] {
      NonHangulPassesThrough(s[..|s| - 1]);
      assert s[..|s| - 1] + [s[|s| - 1]] == s;
    }
  }

  /** The default family name 김 (ㄱ, ㅣ, final ㅁ) romanizes to "gim". */
  lemma KimRomanizesToGim()
    ensures Romanization("김") == "gim"
  {
    assert Compose(0, 20, 16) == '김';
    ComposeDecompose(0, 20, 16);
    assert SyllableRomanWith('김', 8) == "gim";
    assert Romanized("김") == "gim" by {
      assert "김"[..0] == "";
    }
    LowerOfNoUpper("gim");
  }

  /** 발 (ㅂ, ㅏ, final ㄹ) romanizes to "bak", and to "bar" with the intended "k" group. */
  lemma BalRomanizedAsBak()
    ensures Romanization("발") == "bak"
    ensures RomanizationIntended("발") == "bar"
  {
    assert Compose(7, 0, 8) == '발';
    ComposeDecompose(7, 0, 8);
    assert "발"[..0] == "";
    assert Romanized("발") == "bak" by {
      assert SyllableRomanWith('발', 8) == "bak";
    }
    assert FlatMap(CharRomanIntended, "발") == "bar" by {
      assert SyllableRomanWith('발', 9) == "bar";
    }
    LowerOfNoUpper("bak");
    LowerOfNoUpper("bar");
  }
}
