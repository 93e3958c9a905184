/**
 * The static tables of the transliteration service: the surname table and
 * the three Latin-spelling tables that map a spelling of one to four
 * characters to a compatibility jamo (initial consonants, vowels, final
 * consonants).  A JavaScript lookup `table[key]` is truthy exactly when the
 * key is present, because every value is a non-empty string.
 */
module JamoTables {
  import opened Hangul

  /**
   * KOREAN_SURNAMES.  It is one table in the source; here it is the union of
   * four displays, in source order.  The split only keeps the verifier's
   * work small: the facts about the entries (`Surnames1Facts` to
   * `Surnames4Facts`) are checked a display at a time and then merged,
   * since one proof over all fifty entries at once is too costly.
   */
  const KoreanSurnames: map<string, string> := Surnames1 + Surnames2 + Surnames3 + Surnames4

  const Surnames1: map<string, string> := map[
    "johnson" := "존슨", "smith" := "스미스", "brown" := "브라운", "jones" := "존스",
    "garcia" := "가르시아", "miller" := "밀러", "davis" := "데이비스", "rodriguez" := "로드리게스",
    "martinez" := "마르티네스", "hernandez" := "에르난데스", "lopez" := "로페스", "gonzalez" := "곤살레스",
    "wilson" := "윌슨"]

  const Surnames2: map<string, string> := map[
    "anderson" := "앤더슨", "thomas" := "토마스", "taylor" := "테일러", "moore" := "무어",
    "jackson" := "잭슨", "martin" := "마틴", "lee" := "리", "perez" := "페레스",
    "thompson" := "톰슨", "white" := "화이트", "harris" := "해리스", "sanchez" := "산체스",
    "clark" := "클라크"]

  const Surnames3: map<string, string> := map[
    "ramirez" := "라미레스", "lewis" := "루이스", "robinson" := "로빈슨", "walker" := "워커",
    "young" := "영", "allen" := "앨런", "king" := "킹", "wright" := "라이트",
    "scott" := "스콧", "torres" := "토레스", "nguyen" := "응우옌", "hill" := "힐",
    "flores" := "플로레스"]

  const Surnames4: map<string, string> := map[
    "green" := "그린", "adams" := "아담스", "nelson" := "넬슨", "baker" := "베이커",
    "hall" := "홀", "rivera" := "리베라", "campbell" := "캠벨", "mitchell" := "미첼",
    "carter" := "카터", "roberts" := "로버츠"]

  const InitialConsonants: map<string, char> := map[
    "b" := 'ㅂ', "p" := 'ㅍ', "d" := 'ㄷ', "t" := 'ㅌ', "g" := 'ㄱ', "k" := 'ㅋ',
    "j" := 'ㅈ', "ch" := 'ㅊ', "s" := 'ㅅ', "sh" := 'ㅅ', "h" := 'ㅎ',
    "m" := 'ㅁ', "n" := 'ㄴ', "ng" := 'ㅇ', "l" := 'ㄹ', "r" := 'ㄹ',
    "f" := 'ㅍ', "v" := 'ㅂ', "w" := 'ㅇ', "y" := 'ㅇ', "z" := 'ㅈ',
    "c" := 'ㅋ', "x" := 'ㅋ', "q" := 'ㅋ', "th" := 'ㅅ']

  /**
   * VOWELS: the English spellings and then the language-specific letters with
   * diacritics (two displays, as the source groups them).  The last two
   * entries map ç and ñ to consonant jamo, which getVowelCode turns into ㅓ.
   */
  const Vowels: map<string, char> := BasicVowels + AccentedVowels

  const BasicVowels: map<string, char> := map[
    "a" := 'ㅏ', "e" := 'ㅔ', "i" := 'ㅣ', "o" := 'ㅗ', "u" := 'ㅜ',
    "ae" := 'ㅐ', "ai" := 'ㅐ', "ay" := 'ㅔ', "ea" := 'ㅣ', "ei" := 'ㅔ',
    "ie" := 'ㅣ', "oa" := 'ㅗ', "oe" := 'ㅗ', "oo" := 'ㅜ', "ou" := 'ㅜ',
    "oy" := 'ㅗ', "ue" := 'ㅜ', "ui" := 'ㅜ', "ya" := 'ㅑ', "ye" := 'ㅖ',
    "yo" := 'ㅛ', "yu" := 'ㅠ', "au" := 'ㅏ', "aw" := 'ㅏ',
    "eo" := 'ㅓ', "eu" := 'ㅓ', "ew" := 'ㅜ', "ey" := 'ㅔ']

  const AccentedVowels: map<string, char> := map[
    "ä" := 'ㅏ', "ö" := 'ㅓ', "ü" := 'ㅜ', "á" := 'ㅏ', "é" := 'ㅔ',
    "í" := 'ㅣ', "ó" := 'ㅗ', "ú" := 'ㅜ', "à" := 'ㅏ', "è" := 'ㅔ',
    "ì" := 'ㅣ', "ò" := 'ㅗ', "ù" := 'ㅜ', "â" := 'ㅏ', "ê" := 'ㅔ',
    "î" := 'ㅣ', "ô" := 'ㅗ', "û" := 'ㅜ', "ã" := 'ㅏ', "õ" := 'ㅗ',
    "ë" := 'ㅔ', "ï" := 'ㅣ', "ÿ" := 'ㅣ', "ç" := 'ㅅ', "ñ" := 'ㄴ']

  const FinalConsonants: map<string, char> := map[
    "b" := 'ㅂ', "p" := 'ㅂ', "d" := 'ㄷ', "t" := 'ㅅ', "g" := 'ㄱ', "k" := 'ㄱ',
    "s" := 'ㅅ', "z" := 'ㅅ', "x" := 'ㄱ', "f" := 'ㅂ', "v" := 'ㅂ',
    "m" := 'ㅁ', "n" := 'ㄴ', "ng" := 'ㅇ', "l" := 'ㄹ', "r" := 'ㄹ',
    "sh" := 'ㅅ', "ch" := 'ㅅ', "th" := 'ㅅ']

  /**
   * The three spelling tables as one value.  The tokenizer takes this value
   * as a parameter, so that its proofs rest only on the facts collected in
   * `WellFormed` and never on the table contents.
   */
  datatype Spelling = Spelling(initials: map<string, char>, vowels: map<string, char>, finals: map<string, char>)

  const SpellingTables: Spelling := Spelling(InitialConsonants, Vowels, FinalConsonants)

  /** The facts about the spelling tables that the tokenizer's properties depend on. */
  ghost predicate WellFormed(tables: Spelling) {
    && (forall k :: k in tables.finals ==> |k| >= 1 && [k[0]] in tables.initials)
    && (forall k :: k in tables.finals ==> FinalConsonantCode(tables.finals[k]) != 0)
    && (forall k :: k in tables.vowels ==> VowelCode(tables.vowels[k]) in {1, 2, 4, 5, 7, 8, 12, 13, 17, 20})
  }

  lemma SpellingTablesWellFormed()
    ensures WellFormed(SpellingTables)
  {
    forall k | k in FinalConsonants ensures |k| >= 1 && [k[0]] in InitialConsonants {
      FinalStartsWithInitial(k);
    }
    FinalJamoHaveCodes();
    forall k | k in Vowels ensures VowelCode(Vowels[k]) in {1, 2, 4, 5, 7, 8, 12, 13, 17, 20} {
      VowelCodesProduced(k);
    }
  }

  /** Every spelling key is one or two characters long, so lengths 3 and 4 never match. */
  lemma InitialKeysAreShort()
    ensures forall k :: k in InitialConsonants ==> 1 <= |k| <= 2
  {
  }

  lemma VowelKeysAreShort(k: string)
    requires k in Vowels
    ensures 1 <= |k| <= 2
  {
    BasicVowelsFacts();
    AccentedVowelsFacts();
  }

  lemma FinalKeysAreShort()
    ensures forall k :: k in FinalConsonants ==> 1 <= |k| <= 2
  {
  }

  lemma BasicVowelsFacts()
    ensures forall k :: k in BasicVowels ==> 1 <= |k| <= 2
    ensures forall k :: k in BasicVowels ==> VowelCode(BasicVowels[k]) in {1, 2, 4, 5, 7, 8, 12, 13, 17, 20}
  {
  }

  lemma AccentedVowelsFacts()
    ensures forall k :: k in AccentedVowels ==> |k| == 1
    ensures forall k :: k in AccentedVowels ==> VowelCode(AccentedVowels[k]) in {1, 2, 4, 5, 7, 8, 12, 13, 17, 20}
  {
  }

  /** Every final spelling starts with a letter that is itself an initial spelling. */
  lemma FinalStartsWithInitial(k: string)
    requires k in FinalConsonants
    ensures |k| >= 1 && [k[0]] in InitialConsonants
  {
  }

  /** Every final jamo has a non-zero final code, so a committed final always shows in the syllable. */
  lemma FinalJamoHaveCodes()
    ensures forall k :: k in FinalConsonants ==> FinalConsonantCode(FinalConsonants[k]) != 0
  {
  }

  /** No vowel jamo of the table (nor the default ㅓ) has vowel code 18 (ㅡ). */
  lemma VowelCodesProduced(k: string)
    requires k in Vowels
    ensures VowelCode(Vowels[k]) in {1, 2, 4, 5, 7, 8, 12, 13, 17, 20}
  {
    BasicVowelsFacts();
    AccentedVowelsFacts();
  }

  /** Every surname value is a non-empty run of precomposed syllables. */
  lemma SurnamesAreSyllables()
    ensures forall k :: k in KoreanSurnames ==> KoreanSurnames[k] != "" && AllSyllables(KoreanSurnames[k])
  {
    Surnames1Facts();
    Surnames2Facts();
    Surnames3Facts();
    Surnames4Facts();
    MergeHangulValues(Surnames1, Surnames2);
    MergeHangulValues(Surnames1 + Surnames2, Surnames3);
    MergeHangulValues(Surnames1 + Surnames2 + Surnames3, Surnames4);
  }

  /** Merging two tables whose values are non-empty Hangul keeps that property. */
  lemma MergeHangulValues(a: map<string, string>, b: map<string, string>)
    requires forall k :: k in a ==> a[k] != "" && AllSyllables(a[k])
    requires forall k :: k in b ==> b[k] != "" && AllSyllables(b[k])
    ensures forall k :: k in a + b ==> (a + b)[k] != "" && AllSyllables((a + b)[k])
  {
  }

  /** The surname table has no entry for the empty name. */
  lemma NoEmptySurname()
    ensures "" !in KoreanSurnames
  {
    Surnames1Facts();
    Surnames2Facts();
    Surnames3Facts();
    Surnames4Facts();
  }

  lemma Surnames1Facts()
    ensures forall k :: k in Surnames1 ==> Surnames1[k] != "" && AllSyllables(Surnames1[k])
    ensures "" !in Surnames1
  {
  }

  lemma Surnames2Facts()
    ensures forall k :: k in Surnames2 ==> Surnames2[k] != "" && AllSyllables(Surnames2[k])
    ensures "" !in Surnames2
  {
  }

  lemma Surnames3Facts()
    ensures forall k :: k in Surnames3 ==> Surnames3[k] != "" && AllSyllables(Surnames3[k])
    ensures "" !in Surnames3
  {
  }

  lemma Surnames4Facts()
    ensures forall k :: k in Surnames4 ==> Surnames4[k] != "" && AllSyllables(Surnames4[k])
    ensures "" !in Surnames4
  {
  }
}
