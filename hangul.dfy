/**
 * Hangul syllable arithmetic (section 3.12 of The Unicode Standard): a
 * precomposed syllable is 0xAC00 + L * 588 + V * 28 + T for an initial
 * index L in [0, 18], a vowel index V in [0, 20] and a final index T in
 * [0, 27]; 588 = 21 * 28.  Also the service's lookups from a compatibility
 * jamo to its slot index, with their `||` defaults as written.
 */
module Hangul {
  import opened Wrappers

  const SyllableBase: int := 0xAC00
  const InitialCount: int := 19
  const VowelCount: int := 21
  const FinalCount: int := 28

  /** The `[가-힣]` class: U+AC00 to U+D7A3. */
  predicate IsSyllable(c: char) {
    '가' <= c <= '힣'
  }

  predicate AllSyllables(s: string) {
    forall i :: 0 <= i < |s| ==> IsSyllable(s[i])
  }

  function InitialIndex(c: char): int
    requires IsSyllable(c)
  {
    (c as int - SyllableBase) / 588
  }

  function VowelIndex(c: char): int
    requires IsSyllable(c)
  {
    ((c as int - SyllableBase) % 588) / 28
  }

  function FinalIndex(c: char): int
    requires IsSyllable(c)
  {
    (c as int - SyllableBase) % 28
  }

  /** The composition formula of transliteration.ts:321. */
  function Compose(l: int, v: int, t: int): (c: char)
    requires 0 <= l < InitialCount && 0 <= v < VowelCount && 0 <= t < FinalCount
    ensures IsSyllable(c)
  {
    var code := SyllableBase + l * 588 + v * 28 + t;
    assert code <= 0xD7A3 by {
      assert l * 588 <= 18 * 588;
      assert v * 28 <= 20 * 28;
    }
    code as char
  }

  /** Decomposing a composed syllable gives back its three indices. */
  lemma ComposeDecompose(l: int, v: int, t: int)
    requires 0 <= l < InitialCount && 0 <= v < VowelCount && 0 <= t < FinalCount
    ensures InitialIndex(Compose(l, v, t)) == l
    ensures VowelIndex(Compose(l, v, t)) == v
    ensures FinalIndex(Compose(l, v, t)) == t
  {
  }

  /** Decomposition recovers indices in range, and composing them gives the syllable back. */
  lemma DecomposeCompose(c: char)
    requires IsSyllable(c)
    ensures 0 <= InitialIndex(c) < InitialCount
    ensures 0 <= VowelIndex(c) < VowelCount
    ensures 0 <= FinalIndex(c) < FinalCount
    ensures Compose(InitialIndex(c), VowelIndex(c), FinalIndex(c)) == c
  {
    var x := c as int - SyllableBase;
    var l, m := x / 588, x % 588;
    var v, t := m / 28, m % 28;
    assert x == l * 588 + m;
    assert m == v * 28 + t;
  }

  /** JavaScript's `n || d` for a table lookup that may be `undefined`: both `undefined` and `0` give `d`. */
  function NumberOr(n: Option<int>, d: int): (r: int)
    ensures n.Some? && n.value != 0 ==> r == n.value
    ensures n.None? || n.value == 0 ==> r == d
  {
    if n.Some? && n.value != 0 then n.value else d
  }

  /** The `codes` record of getInitialConsonantCode: jamo to initial index, `None` where the record has no entry. */
  function InitialCodes(c: char): Option<int> {
    match c
    case 'ㅇ' => Some(11) case 'ㄱ' => Some(0) case 'ㄴ' => Some(2) case 'ㄷ' => Some(3)
    case 'ㄹ' => Some(5) case 'ㅁ' => Some(6) case 'ㅂ' => Some(7) case 'ㅅ' => Some(9)
    case 'ㅈ' => Some(12) case 'ㅊ' => Some(14) case 'ㅋ' => Some(15) case 'ㅌ' => Some(16)
    case 'ㅍ' => Some(17) case 'ㅎ' => Some(18)
    case _ => None
  }

  /** The `codes` record of getVowelCode: jamo to vowel index. */
  function VowelCodes(c: char): Option<int> {
    match c
    case 'ㅏ' => Some(0) case 'ㅐ' => Some(1) case 'ㅑ' => Some(2) case 'ㅒ' => Some(3)
    case 'ㅓ' => Some(4) case 'ㅔ' => Some(5) case 'ㅕ' => Some(6) case 'ㅖ' => Some(7)
    case 'ㅗ' => Some(8) case 'ㅘ' => Some(9) case 'ㅙ' => Some(10) case 'ㅚ' => Some(11)
    case 'ㅛ' => Some(12) case 'ㅜ' => Some(13) case 'ㅝ' => Some(14) case 'ㅞ' => Some(15)
    case 'ㅟ' => Some(16) case 'ㅠ' => Some(17) case 'ㅡ' => Some(18) case 'ㅢ' => Some(19)
    case 'ㅣ' => Some(20)
    case _ => None
  }

  /** The `codes` record of getFinalConsonantCode: jamo to final index. */
  function FinalCodes(c: char): Option<int> {
    match c
    case 'ㄱ' => Some(1) case 'ㄴ' => Some(4) case 'ㄷ' => Some(7) case 'ㄹ' => Some(8)
    case 'ㅁ' => Some(16) case 'ㅂ' => Some(17) case 'ㅅ' => Some(19) case 'ㅇ' => Some(21)
    case _ => None
  }

  /**
   * getInitialConsonantCode: the table index, defaulting to 11 (ㅇ).  Because
   * the default is taken with `||`, ㄱ (index 0) also becomes 11, so the
   * result is never 0.
   */
  function InitialConsonantCode(c: char): (n: int)
    ensures 1 <= n < InitialCount
    ensures c == 'ㄱ' || InitialCodes(c).None? ==> n == 11
    ensures InitialCodes(c).Some? && c != 'ㄱ' ==> n == InitialCodes(c).value
  {
    NumberOr(InitialCodes(c), 11)
  }

  /** getVowelCode: the table index, defaulting to 4 (ㅓ); ㅏ (index 0) also becomes 4. */
  function VowelCode(c: char): (n: int)
    ensures 1 <= n < VowelCount
    ensures c == 'ㅏ' || VowelCodes(c).None? ==> n == 4
    ensures VowelCodes(c).Some? && c != 'ㅏ' ==> n == VowelCodes(c).value
  {
    NumberOr(VowelCodes(c), 4)
  }

  /** getFinalConsonantCode: the table index, or 0 (no final) for anything else. */
  function FinalConsonantCode(c: char): (n: int)
    ensures n in {0, 1, 4, 7, 8, 16, 17, 19, 21}
    ensures FinalCodes(c).Some? ==> n == FinalCodes(c).value
    ensures FinalCodes(c).None? ==> n == 0
  {
    NumberOr(FinalCodes(c), 0)
  }

  /**
   * combineHangulComponents: the precomposed syllable for the codes of
   * the three jamo.
   */
  function CombineHangulComponents(initial: char, vowel: char, final: Option<char>): (c: char)
    ensures IsSyllable(c)
  {
    var t := if final.Some? then FinalConsonantCode(final.value) else 0;
    Compose(InitialConsonantCode(initial), VowelCode(vowel), t)
  }

  /**
   * The syllable combineHangulComponents builds decomposes into exactly the
   * three looked-up codes.  As written the initial index is never 0 and the
   * vowel index never 0, and the final index is one of the nine values the
   * final table and its default can produce.
   */
  lemma CombineDecomposes(initial: char, vowel: char, final: Option<char>)
    ensures InitialIndex(CombineHangulComponents(initial, vowel, final)) == InitialConsonantCode(initial)
    ensures VowelIndex(CombineHangulComponents(initial, vowel, final)) == VowelCode(vowel)
    ensures FinalIndex(CombineHangulComponents(initial, vowel, final)) == if final.Some? then FinalConsonantCode(final.value) else 0
    ensures InitialIndex(CombineHangulComponents(initial, vowel, final)) != 0
    ensures VowelIndex(CombineHangulComponents(initial, vowel, final)) != 0
    ensures FinalIndex(CombineHangulComponents(initial, vowel, final)) in {0, 1, 4, 7, 8, 16, 17, 19, 21}
  {
    var t := if final.Some? then FinalConsonantCode(final.value) else 0;
    ComposeDecompose(InitialConsonantCode(initial), VowelCode(vowel), t);
  }
}
