# Korean name transliteration: a verified model

This project models the core of a web service that turns a foreign personal
name into Korean Hangul and gives back a romanization of the result. It
covers three parts of the application.

- **The transliteration service** (`server/services/transliteration.ts`):
  - It normalizes the name and splits it on spaces.
  - The first part is the family name. It is looked up in a table of common
    surnames, and 김 is used when the surname is not in the table.
  - Every later part goes through the phonetic path:
    - ordered rewrite patterns (`mc` → 맥, `son$` → 슨, …);
    - a greedy longest-match tokenizer over three spelling tables
      (initial consonant, vowel, final consonant);
    - composition of the jamo into precomposed syllables with the Unicode
      formula;
    - a clean-up pass.
  - Each part is romanized by decomposing its syllables again and looking up
    the jamo in a Latin table.
  - A separate function guesses the language of a text from the characters
    in it.
- **The client helpers** (`client/src/lib/transliterationMaps.ts`): the list
  of supported languages and its lookup by code, the validation of a typed
  name, and the one-line rendering of a breakdown.
- **The in-memory store** (`server/storage.ts`): a class holding users and
  conversion records in maps keyed by auto-incremented ids. It offers the
  lookups, a "most recent first" listing with a limit, and a case-insensitive
  search by name.

## Modules

Each service function is a Dafny function where it only computes. It is a
method with loop invariants where the source loops, and that method is proved
equal to a specification function. The store is a class whose methods update
its fields.

| module | file | what it holds |
|---|---|---|
| `Wrappers` | wrappers.dfy | `Option` |
| `Text` | text.dfy | JavaScript string primitives: `\s`, `\w`, `toLowerCase` on ASCII and Latin-1, `trim`, `split`, `join`, `includes` |
| `Hangul` | hangul.dfy | syllable composition and decomposition; the three `get*Code` tables; `combineHangulComponents` |
| `JamoTables` | jamo_tables.dfy | `KOREAN_SURNAMES`, `INITIAL_CONSONANTS`, `VOWELS`, `FINAL_CONSONANTS`, and the facts about them that the proofs use |
| `Tokenizer` | tokenizer.dfy | `findLongestMatch`, `buildKoreanSyllable`, `convertToKoreanSyllables` |
| `Phonetic` | phonetic.dfy | `PHONETIC_PATTERNS`, `phoneticConversion`, `postProcessKorean` |
| `Romanizer` | romanizer.dfy | `generateRomanization` |
| `Transliteration` | transliteration.dfy | `normalizeName`, `convertSingleName`, `convertToKorean` |
| `Detection` | detection.dfy | `detectLanguage` |
| `TransliterationMaps` | validation.dfy | `SUPPORTED_LANGUAGES`, `getLanguageByCode`, `validateNameInput`, `formatKoreanBreakdown` |
| `Storage` | storage.dfy | `MemStorage` and the queries it runs |

The service's static tables are passed to the operations as a parameter
(`Transliteration.Tables`, `JamoTables.Spelling`, the pattern list).
`Transliteration.ServiceTables` holds the service's own values. The proofs
about the tokenizer rest on `JamoTables.WellFormed`, which
`SpellingTablesWellFormed` establishes for the real tables.

## Model

| member | source | states |
|---|---|---|
| Text.LowerChar | server/services/transliteration.ts:167 | `toLowerCase` of one character leaves no upper-case ASCII or Latin-1 letter, and changes exactly the upper-case ones |
| Text.Lower | server/services/transliteration.ts:167 | lower-casing keeps the length and works character by character |
| Text.LowerIdempotent | server/services/transliteration.ts:189 | lower-casing twice is lower-casing once |
| Text.LowerConcat | server/services/transliteration.ts:405 | lower-casing distributes over concatenation |
| Text.LowerOfNoUpper | server/services/transliteration.ts:405 | a string without upper-case letters is unchanged by `toLowerCase` |
| Text.TrimStart | server/services/transliteration.ts:166 | drops exactly the leading whitespace: the result is a suffix that does not start with whitespace, and all of the dropped prefix is whitespace |
| Text.TrimEnd | server/services/transliteration.ts:166 | drops exactly the trailing whitespace, in the same way |
| Text.TrimEmptyIffAllSpace | client/src/lib/transliterationMaps.ts:26 | `trim()` is empty if and only if every character is whitespace |
| Text.TrimStartAllSpace | client/src/lib/transliterationMaps.ts:26 | a string made only of whitespace trims to nothing |
| Text.Split | server/services/transliteration.ts:136 | `split` on one character gives at least one piece, and no piece contains the separator |
| Text.JoinAppend | server/services/transliteration.ts:159-160 | joining one more part appends the separator and the part |
| Text.ConcatAppend | server/services/transliteration.ts:159 | joining with `''` one more part appends the part |
| Text.SplitJoin | server/services/transliteration.ts:136 | joining the pieces of a split with the separator gives back the string |
| Text.JoinSplit | server/services/transliteration.ts:160 | splitting the join of separator-free parts gives back the parts |
| Text.SplitNoSep | server/services/transliteration.ts:136 | a string without the separator splits into itself alone |
| Text.SplitAfterPiece | server/services/transliteration.ts:136 | a separator-free piece followed by the separator splits off as the first piece |
| Text.FlatMapConcat | server/services/transliteration.ts:372-403 | a per-character translation distributes over concatenation |
| Text.ContainsEmpty | server/storage.ts:62 | every string `includes('')` |
| Hangul.Compose | server/services/transliteration.ts:321-323 | `0xAC00 + l × 588 + v × 28 + t` with indices in range is a precomposed syllable |
| Hangul.ComposeDecompose | server/services/transliteration.ts:375-378 | the decomposition of a composed syllable gives back its three indices |
| Hangul.DecomposeCompose | server/services/transliteration.ts:375-378 | every syllable decomposes into indices in range that compose back to it |
| Hangul.NumberOr | server/services/transliteration.ts:331 | `x \|\| d` on a number: a present, non-zero entry, else the default |
| Hangul.InitialConsonantCode | server/services/transliteration.ts:326-332 | a listed jamo gets its code, except that ㄱ (code 0, falsy) and any unlisted one get 11 (ㅇ), so the result is 1..18 |
| Hangul.VowelCode | server/services/transliteration.ts:334-341 | a listed vowel gets its code, except that ㅏ (code 0) and any unlisted one get 4 (ㅓ), so the result is 1..20 |
| Hangul.FinalConsonantCode | server/services/transliteration.ts:343-348 | a listed jamo gets its code and anything else 0, so the result is one of 0, 1, 4, 7, 8, 16, 17, 19, 21 |
| Hangul.CombineHangulComponents | server/services/transliteration.ts:314-324 | the composed character is a precomposed syllable |
| Hangul.CombineDecomposes | server/services/transliteration.ts:314-324 | the composed syllable's indices are the three codes; the initial is never ㄱ and the vowel never ㅏ |
| JamoTables.SpellingTablesWellFormed | server/services/transliteration.ts:64-92 | the spelling tables meet `WellFormed`: every final key starts with an initial key, every final jamo has a non-zero code, and every vowel maps to a code other than ㅡ |
| JamoTables.InitialKeysAreShort | server/services/transliteration.ts:64-70 | every initial spelling has one or two letters |
| JamoTables.VowelKeysAreShort | server/services/transliteration.ts:72-85 | every vowel spelling has one or two letters |
| JamoTables.FinalKeysAreShort | server/services/transliteration.ts:87-92 | every final spelling has one or two letters |
| JamoTables.BasicVowelsFacts | server/services/transliteration.ts:73-78 | the Latin vowel spellings are short, and their jamo have codes other than ㅡ |
| JamoTables.AccentedVowelsFacts | server/services/transliteration.ts:80-84 | the accented vowel spellings are single letters, and their jamo have codes other than ㅡ |
| JamoTables.FinalStartsWithInitial | server/services/transliteration.ts:87-92 | the first letter of every final spelling is itself an initial spelling |
| JamoTables.FinalJamoHaveCodes | server/services/transliteration.ts:87-92 | every final jamo is one that getFinalConsonantCode knows |
| JamoTables.VowelCodesProduced | server/services/transliteration.ts:72-85 | the vowel codes the table can produce |
| JamoTables.SurnamesAreSyllables | server/services/transliteration.ts:10-61 | every surname entry is a non-empty run of precomposed syllables |
| JamoTables.MergeHangulValues | server/services/transliteration.ts:10-61 | merging two tables with Hangul values gives one with Hangul values |
| JamoTables.NoEmptySurname | server/services/transliteration.ts:10-61 | the empty string is not a surname key |
| JamoTables.Surnames1Facts | server/services/transliteration.ts:10-61 | the first quarter of the surname table has non-empty Hangul values and no empty key |
| JamoTables.Surnames2Facts | server/services/transliteration.ts:10-61 | the same for the second quarter |
| JamoTables.Surnames3Facts | server/services/transliteration.ts:10-61 | the same for the third quarter |
| JamoTables.Surnames4Facts | server/services/transliteration.ts:10-61 | the same for the fourth quarter |
| Tokenizer.MatchLength | server/services/transliteration.ts:299-309 | the match length is at most 4, and a non-zero length names a key of the table |
| Tokenizer.MatchLengthIsLongest | server/services/transliteration.ts:299-309 | no longer spelling (up to 4) is a key: the match is the longest |
| Tokenizer.LongestMatch | server/services/transliteration.ts:295-312 | a jamo is found exactly when the length is non-zero, and it is the table's entry for the matched spelling |
| Tokenizer.FindLongestMatch | server/services/transliteration.ts:295-312 | the loop from length 4 down to 1 returns the longest match |
| Tokenizer.FinalLength | server/services/transliteration.ts:269-279 | a final is committed only inside the text and with the longest final spelling |
| Tokenizer.HeadLength | server/services/transliteration.ts:236-266 | initial and vowel use at least one character, or else only the matched initial |
| Tokenizer.SyllableAt | server/services/transliteration.ts:231-293 | the builder always returns one precomposed syllable and uses at least one character |
| Tokenizer.FinalAt | server/services/transliteration.ts:269-279 | a final jamo is present exactly when a final spelling was committed |
| Tokenizer.BuildKoreanSyllable | server/services/transliteration.ts:231-293 | the builder method returns the syllable and the count of `SyllableAt` |
| Tokenizer.NoInitialMeansNoFinal | server/services/transliteration.ts:239-279 | where no initial spelling matches, no final spelling matches either |
| Tokenizer.SyllableWithinText | server/services/transliteration.ts:231-293 | the builder never uses more characters than remain |
| Tokenizer.UnmatchedCharacterBecomesEo | server/services/transliteration.ts:252-262 | a character that starts no initial and no vowel spelling becomes 어 and is used up alone |
| Tokenizer.ConsonantGetsDefaultVowel | server/services/transliteration.ts:263-266 | a consonant with no vowel after it gets ㅓ, and the vowel uses no input |
| Tokenizer.SyllableShape | server/services/transliteration.ts:286-292 | the syllable's initial is the code of the matched initial (or ㅇ), its vowel is never ㅡ, and it has a final exactly when one was committed |
| Tokenizer.SyllablesFrom | server/services/transliteration.ts:214-229 | the tokenizer makes only syllables, at most one per remaining character, and at least one for non-empty text |
| Tokenizer.SyllableThenRest | server/services/transliteration.ts:218-226 | one step: the syllable built at `i`, then the rest |
| Tokenizer.SyllablesFromStep | server/services/transliteration.ts:218-226 | the output from `i` is the syllable at `i` followed by the output after the characters it used |
| Tokenizer.TokenizerStep | server/services/transliteration.ts:218-226 | the loop invariant survives one iteration |
| Tokenizer.TokenizerDone | server/services/transliteration.ts:228 | at the end of the text the joined syllables are the whole result |
| Tokenizer.Syllables | server/services/transliteration.ts:214-229 | the result is syllables only, no longer than the text, and empty exactly for empty text |
| Tokenizer.SyllableIsNotEu | server/services/transliteration.ts:231-293 | the builder never makes 으 |
| Tokenizer.NoEuFrom | server/services/transliteration.ts:214-229 | 으 never appears in the tokenizer's output |
| Tokenizer.SyllablesAvoidEu | server/services/transliteration.ts:214-229 | so convertToKoreanSyllables never outputs 으 |
| Tokenizer.ConvertToKoreanSyllables | server/services/transliteration.ts:214-229 | the while loop returns `Syllables(text)` |
| Phonetic.FirstOccurrence | server/services/transliteration.ts:190 | a found position is the leftmost occurrence at or after `from`, and none means no occurrence |
| Phonetic.ApplyPattern | server/services/transliteration.ts:190 | a replacement either leaves the string alone or swaps the pattern's length for the replacement's; no character comes from anywhere else |
| Phonetic.ReplacesLeftmostOccurrence | server/services/transliteration.ts:190 | a non-global unanchored replace rewrites exactly the leftmost occurrence |
| Phonetic.RewriteKeepsOut | server/services/transliteration.ts:189-191 | the rewrite pass inserts no character that no replacement holds |
| Phonetic.RewriteNeverLengthens | server/services/transliteration.ts:189-191 | replacements no longer than their patterns never lengthen the name |
| Phonetic.PatternTableFacts | server/services/transliteration.ts:95-126 | every replacement is no longer than its pattern and holds neither 으 nor `\|` |
| Phonetic.RewriteNeverLonger | server/services/transliteration.ts:188-191 | the service's rewrite pass never makes the name longer |
| Phonetic.RewriteWithPatterns | server/services/transliteration.ts:188-191 | the pattern loop returns the patterns applied in order to the lower-cased name |
| Phonetic.RunLength | server/services/transliteration.ts:194 | the length of the maximal leading run of syllables |
| Phonetic.HangulRuns | server/services/transliteration.ts:194 | `match(/[가-힣]+/g)` gives non-empty runs of syllables |
| Phonetic.BarForRuns | server/services/transliteration.ts:195 | after replacing the runs with `\|`, no syllable is left |
| Phonetic.LatinFragments | server/services/transliteration.ts:195 | at least one fragment, and none holds a syllable |
| Phonetic.PieceCharInJoin | server/services/transliteration.ts:195 | a character of a piece is in the join |
| Phonetic.FragmentsOutnumberRuns | server/services/transliteration.ts:194-209 | there is always one more fragment than runs, so the loop puts every run back |
| Phonetic.InterleavePrepend | server/services/transliteration.ts:200-209 | prepending to the first piece prepends to the interleaving |
| Phonetic.FragmentsAndRunsRoundTrip | server/services/transliteration.ts:194-209 | putting the fragments back between the runs gives the name again, when the name holds no `\|` |
| Phonetic.StripTrailingEu | server/services/transliteration.ts:353 | one trailing 으 is dropped, and nothing else |
| Phonetic.DropEuAfterConsonant | server/services/transliteration.ts:354 | the result is no longer and has no new characters |
| Phonetic.DropEuWithoutConsonants | server/services/transliteration.ts:354 | without consonant jamo the replacement does nothing |
| Phonetic.SameRun | server/services/transliteration.ts:355 | the length of the leading run of one character |
| Phonetic.LimitRepeats | server/services/transliteration.ts:355 | the result is no longer, keeps the first two characters, and has no new characters |
| Phonetic.LimitRepeatsNoTriples | server/services/transliteration.ts:355 | after the repeat limit no character appears three times in a row |
| Phonetic.LimitRepeatsKeepsNoTriples | server/services/transliteration.ts:355 | a string without triples is left as it is |
| Phonetic.LimitRepeatsIdempotent | server/services/transliteration.ts:355 | limiting repeats twice is limiting once |
| Phonetic.PostProcessKorean | server/services/transliteration.ts:350-356 | the clean-up never lengthens, adds no character, and leaves no triple |
| Phonetic.PostProcessOfSyllables | server/services/transliteration.ts:350-356 | on syllables not ending in 으 only the repeat limit acts |
| Phonetic.ConvertFragments | server/services/transliteration.ts:200-204 | each fragment is converted by the tokenizer |
| Phonetic.PhoneticSpec | server/services/transliteration.ts:187-212 | phoneticConversion's result has no triples |
| Phonetic.InterleaveStep | server/services/transliteration.ts:200-209 | the fragment loop's invariant survives one iteration, with or without a run to push |
| Phonetic.PhoneticConversion | server/services/transliteration.ts:187-212 | the method returns `PhoneticSpec` |
| Phonetic.InterleaveChars | server/services/transliteration.ts:200-209 | every character of the interleaving comes from a piece or a run |
| Phonetic.RunsKeepOut | server/services/transliteration.ts:194 | a character absent from the name is absent from its runs |
| Phonetic.AssembledIsHangul | server/services/transliteration.ts:197-209 | the interleaving is made of syllables only |
| Phonetic.PhoneticIsHangul | server/services/transliteration.ts:187-212 | whatever the name, phoneticConversion returns syllables only |
| Phonetic.PhoneticWithoutEu | server/services/transliteration.ts:187-212 | for a name without 으, of the clean-up only the repeat limit acts |
| Romanizer.RomanOf | server/services/transliteration.ts:360-368 | every entry of romanizationMap is lower-case ASCII |
| Romanizer.OrEmpty | server/services/transliteration.ts:386-388 | `map[x] \|\| ''`: the entry, or `''` when there is none |
| Romanizer.InitialRoman | server/services/transliteration.ts:386 | the initial's Latin is lower-case ASCII |
| Romanizer.VowelRoman | server/services/transliteration.ts:387 | the vowel's Latin is lower-case ASCII |
| Romanizer.FinalRoman | server/services/transliteration.ts:388 | the final's Latin is lower-case ASCII, and empty without a final |
| Romanizer.PronunciationChain | server/services/transliteration.ts:391-397 | the override chain gives lower-case ASCII |
| Romanizer.FinalPronunciation | server/services/transliteration.ts:391-397 | the chain the source runs (with `final === 8`) gives lower-case ASCII |
| Romanizer.FinalPronunciationIntended | server/services/transliteration.ts:391-397 | the chain its comments describe (ㄺ, index 9, in the "k" group) gives lower-case ASCII |
| Romanizer.FinalPronunciationIsCoda | server/services/transliteration.ts:386-397 | the intended chain and the table together give the coda groups: ㄱ ㄲ ㄺ "k", ㄹ "r", ㄴ ㄵ ㄶ "n", ㄷ ㅅ ㅆ ㅈ–ㅎ "t", ㅂ ㅄ "p", ㅁ "m", the rest silent |
| Romanizer.RieulReadAsK | server/services/transliteration.ts:392 | the source's chain differs from the intended one exactly at ㄹ (read "k") and ㄺ (silent) |
| Romanizer.FinalPronunciationAsCoda | server/services/transliteration.ts:386-397 | the source's chain gives the coda groups, except that ㄹ reads "k" and ㄺ is silent |
| Romanizer.SilentInitials | server/services/transliteration.ts:362-363 | exactly the double initials and ㅇ romanize to nothing |
| Romanizer.VowelsAreVoiced | server/services/transliteration.ts:365-367 | every vowel has a non-empty romanization |
| Romanizer.SyllableRomanWith | server/services/transliteration.ts:399 | one syllable romanizes to a non-empty string of lower-case ASCII letters |
| Romanizer.GenerateRomanization | server/services/transliteration.ts:358-406 | the loop and `toLowerCase` return `Romanization(korean)`: per character, a syllable's initial, vowel and the source's final pronunciation (ㄹ read "k"), any other character copied, then lower-cased |
| Romanizer.RomanizedConcat | server/services/transliteration.ts:372-403 | romanization distributes over concatenation |
| Romanizer.SyllablesRomanizeLowercase | server/services/transliteration.ts:372-405 | syllables romanize to lower-case ASCII, which `toLowerCase` keeps |
| Romanizer.NonHangulPassesThrough | server/services/transliteration.ts:400-405 | text without syllables is only lower-cased |
| Romanizer.KimRomanizesToGim | server/services/transliteration.ts:372-405 | the default family name 김 romanizes to "gim" |
| Romanizer.BalRomanizedAsBak | server/services/transliteration.ts:392 | 발 romanizes to "bak", and to "bar" with the intended chain |
| Transliteration.StripDisallowed | server/services/transliteration.ts:168 | only `\w`, `\s` and the listed accented letters survive, and nothing is added |
| Transliteration.SpaceRun | server/services/transliteration.ts:169 | the length of the maximal leading whitespace run |
| Transliteration.CollapseSpaces | server/services/transliteration.ts:169 | every whitespace run becomes one plain space; no two spaces are adjacent |
| Transliteration.NormalizedShape | server/services/transliteration.ts:165-170 | a normalized name is no longer, holds only kept lower-case characters, and has only single plain spaces |
| Transliteration.TrailingSpaceSurvives | server/services/transliteration.ts:166-169 | trimming comes first, so "a !" normalizes to "a " with a trailing space |
| Transliteration.TrimLowerExample | server/services/transliteration.ts:166-167 | "a !" is unchanged by trim and lower-casing |
| Transliteration.StripExample | server/services/transliteration.ts:168 | the clean-up turns "a !" into "a " |
| Transliteration.CollapseExample | server/services/transliteration.ts:169 | "a " is unchanged by the whitespace collapse |
| Transliteration.ServiceSurnamesFacts | server/services/transliteration.ts:10-61 | the service's surnames are non-empty Hangul, with no empty key |
| Transliteration.ServicePhoneticFacts | server/services/transliteration.ts:64-126 | the service's spelling tables are well-formed, and no pattern inserts 으 |
| Transliteration.SingleNameIsHangul | server/services/transliteration.ts:172-185 | every part converts to syllables, and a family part never to nothing |
| Transliteration.ConvertSingleName | server/services/transliteration.ts:172-185 | the table's surname, else 김 for a family part, else the phonetic conversion |
| Transliteration.Breakdown | server/services/transliteration.ts:142-156 | one entry per part, the first one as the family name; each entry holds the part's Hangul and the source's romanization of it |
| Transliteration.NameParts | server/services/transliteration.ts:135-136 | the normalized name has at least one space-separated part |
| Transliteration.ConvertStep | server/services/transliteration.ts:142-156 | the loop invariant survives pushing one part's entry |
| Transliteration.PartEntry | server/services/transliteration.ts:143-155 | the entry the loop builds is the part's breakdown entry |
| Transliteration.EntriesAppend | server/services/transliteration.ts:147-155 | appending an entry appends its Hangul and its romanization |
| Transliteration.ConvertDone | server/services/transliteration.ts:158-162 | after all parts the lists hold exactly the breakdown's values |
| Transliteration.ConvertToKorean | server/services/transliteration.ts:130-163 | the forEach loop returns `Converted(name)`: the entries of the parts, their Hangul run together and their romanizations (as generateRomanization computes them) joined by spaces |
| Transliteration.BreakdownShape | server/services/transliteration.ts:142-156 | one entry per part; the first is the family part, the surname entry or 김; the rest are given parts converted phonetically; every romanization is generateRomanization's of its Hangul |
| Transliteration.NameAndRomanizationFromParts | server/services/transliteration.ts:158-162 | the Korean name is the entries run together; the romanization is their romanizations joined by spaces, and splitting it on spaces gives them back |
| Transliteration.RomanizationHasNoSpace | server/services/transliteration.ts:358-406 | the romanization of syllables holds no space |
| Transliteration.JoinOfSyllables | server/services/transliteration.ts:159 | joining syllable strings gives syllables |
| Transliteration.HangulOfEntries | server/services/transliteration.ts:159 | the joined Hangul is non-empty syllables when the first entry is |
| Transliteration.KoreanNameIsHangul | server/services/transliteration.ts:130-163 | the Korean name is always a non-empty run of syllables |
| Transliteration.EmptyNameParts | server/services/transliteration.ts:135-136 | the empty name has the single part "" |
| Transliteration.EmptyPartBreakdown | server/services/transliteration.ts:172-181 | the single empty part becomes 김 / "gim" |
| Transliteration.EmptyNameGivesKim | server/services/transliteration.ts:130-163 | the empty name converts to 김 with romanization "gim" |
| Detection.DetectLanguage | server/services/transliteration.ts:408-422 | the result is one of the eleven codes |
| Detection.FirstMatch | server/services/transliteration.ts:408-422 | the first-match reading of a rule table gives "en" or some rule's code |
| Detection.DetectIsFirstMatch | server/services/transliteration.ts:408-422 | the chain of tests is the first-match reading of the rule table |
| Detection.FirstMatchStep | server/services/transliteration.ts:410-419 | reading the table from rule `i` on tries rule `i`, then the rest |
| Detection.RulesNeverEnglish | server/services/transliteration.ts:410-419 | no rule names English |
| Detection.FirstMatchIsFirstHit | server/services/transliteration.ts:410-419 | the first rule hit decides |
| Detection.FirstMatchDefault | server/services/transliteration.ts:421 | the default is returned exactly when no rule is hit |
| Detection.EnglishWhenNothingElse | server/services/transliteration.ts:408-422 | English exactly when no character is in any class |
| Detection.KoreanWhenHangul | server/services/transliteration.ts:410 | Korean exactly when the text holds a Hangul syllable |
| Detection.GermanNeedsUmlautOrEszett | server/services/transliteration.ts:415-417 | German is only ever detected through ä, ö or ß, since ü goes to Spanish first |
| Detection.ItalianNeedsGraveIOrO | server/services/transliteration.ts:416-418 | Italian is only detected through ì or ò |
| Detection.PortugueseNeedsTilde | server/services/transliteration.ts:415-419 | Portuguese is only detected through ã or õ |
| Detection.TestBySet | server/services/transliteration.ts:410-419 | a class test depends only on which characters occur |
| Detection.DetectionBySet | server/services/transliteration.ts:408-422 | detection ignores order and repetition |
| Detection.HangulDominates | server/services/transliteration.ts:410 | any text with a Hangul syllable added is Korean |
| TransliterationMaps.Find | client/src/lib/transliterationMaps.ts:21-23 | `find` returns the first entry with the code, and nothing exactly when no entry has it |
| TransliterationMaps.FindUnique | client/src/lib/transliterationMaps.ts:21-23 | with distinct codes, looking up an entry's code finds that entry |
| TransliterationMaps.SupportedCodesDistinct | client/src/lib/transliterationMaps.ts:3-19 | the supported codes are distinct |
| TransliterationMaps.LanguageByOwnCode | client/src/lib/transliterationMaps.ts:3-23 | every supported language is found by its own code |
| TransliterationMaps.CodesOfSupported | client/src/lib/transliterationMaps.ts:3-19 | the codes of the list, in order |
| TransliterationMaps.NotFound | client/src/lib/transliterationMaps.ts:21-23 | a code no entry has is not found |
| TransliterationMaps.GreekNotListed | client/src/lib/transliterationMaps.ts:3-23 | "el" is not a supported code |
| TransliterationMaps.DetectedCodesListed | client/src/lib/transliterationMaps.ts:3-23 | of the codes detectLanguage returns, every one but "el" has a supported language |
| TransliterationMaps.Utf16Length | client/src/lib/transliterationMaps.ts:30 | `length` counts two for a character outside the Basic Multilingual Plane |
| TransliterationMaps.Validate | client/src/lib/transliterationMaps.ts:25-41 | valid exactly when the trimmed name is non-empty, at most 100 UTF-16 units long and all allowed characters; otherwise "Name is required", "Name is too long" or "Name contains invalid characters", in the source's order |
| TransliterationMaps.AcceptedNameShape | client/src/lib/transliterationMaps.ts:25-41 | an accepted name has 1 to 100 characters and a non-blank one |
| TransliterationMaps.BlankIsRequired | client/src/lib/transliterationMaps.ts:26-28 | a blank name gets "Name is required" |
| TransliterationMaps.AstralRejected | client/src/lib/transliterationMaps.ts:35-37 | a character outside the Basic Multilingual Plane is never accepted |
| TransliterationMaps.HangulNameAccepted | client/src/lib/transliterationMaps.ts:25-41 | a name of 1 to 100 Hangul syllables is accepted |
| TransliterationMaps.CorrectionOnlyWidens | client/src/lib/transliterationMaps.ts:35 | every name `ValidateNameInput` (the pattern as written) accepts, `ValidateNameInputIntended` accepts |
| TransliterationMaps.SakuraRejectedAsWritten | client/src/lib/transliterationMaps.ts:35 | `ValidateNameInput("さくら")` gives "Name contains invalid characters", and `ValidateNameInputIntended` accepts it |
| TransliterationMaps.Entries | client/src/lib/transliterationMaps.ts:44-45 | one `hangul (romanization)` entry per item |
| TransliterationMaps.SplitCons | client/src/lib/transliterationMaps.ts:46 | a leading non-separator character joins the first piece |
| TransliterationMaps.JoinAtFirstBullet | client/src/lib/transliterationMaps.ts:46 | the join is the first entry, " • ", then the join of the rest |
| TransliterationMaps.PaddedCons | client/src/lib/transliterationMaps.ts:46 | the padded pieces of a list are the first one, then the padded rest |
| TransliterationMaps.SplitAtBullets | client/src/lib/transliterationMaps.ts:46 | splitting the join at the bullets gives the entries back, padded with the spaces around the bullet |
| TransliterationMaps.FormatEmpty | client/src/lib/transliterationMaps.ts:43-47 | an empty breakdown formats to "" |
| TransliterationMaps.FormatSplitsBack | client/src/lib/transliterationMaps.ts:43-47 | when no bullet is in a hangul or romanization, splitting the formatted line at the bullets gives the entries back |
| Storage.FirstWithUsername | server/storage.ts:29-33 | the first user with that username, and nothing exactly when none has it |
| Storage.InsertByTime | server/storage.ts:55 | an insertion step of the stable sort keeps every record and adds one |
| Storage.RecencyOrder | server/storage.ts:54-55 | the sort keeps exactly the stored records |
| Storage.ConsKeepsOrder | server/storage.ts:55 | a record that precedes the rest of a sorted list keeps it sorted |
| Storage.InsertedFrom | server/storage.ts:55 | every record after insertion is the new one or an old one |
| Storage.InsertKeepsOrder | server/storage.ts:55 | inserting a later-created record into a sorted list keeps it newest first, ties in insertion order |
| Storage.RecencyOrderSorts | server/storage.ts:54-55 | the sort orders newest first, ties in insertion order, and is a permutation |
| Storage.SliceEnd | server/storage.ts:56 | `slice(0, end)`: a non-negative end is capped at the length, and a negative one counts back from it |
| Storage.RecentAreNewest | server/storage.ts:53-57 | the recent list holds at most `limit` records (10 by default), newest first, taken from the store, and no record left out is newer |
| Storage.PrefixOfSorted | server/storage.ts:56 | a prefix of a sorted list is sorted, and no later record is newer |
| Storage.Matching | server/storage.ts:59-64 | the search result is no longer than the store |
| Storage.MatchingIsExact | server/storage.ts:59-64 | a record is in the result exactly when it is stored and its name contains the query, ignoring case |
| Storage.EmptyQueryMatchesAll | server/storage.ts:59-64 | the empty query returns every record |
| Storage.MatchingKeepsOrder | server/storage.ts:60-63 | the result keeps insertion order |
| Storage.MemStorage.constructor | server/storage.ts:18-23 | an empty store whose counters start at 1 |
| Storage.MemStorage.UserList | server/storage.ts:30 | the users in insertion order |
| Storage.MemStorage.ConversionList | server/storage.ts:54 | the conversions in insertion order, with ascending ids |
| Storage.MemStorage.GetUser | server/storage.ts:25-27 | a user is found exactly when the id was handed out, and it is the one stored under it |
| Storage.MemStorage.GetUserByUsername | server/storage.ts:29-33 | the first user, in insertion order, with that username |
| Storage.MemStorage.CreateUser | server/storage.ts:35-40 | the new user gets the next id and is stored under it; the counter advances; the conversions are unchanged |
| Storage.MemStorage.CreateConversion | server/storage.ts:42-51 | the new record gets the next id and the creation time and is stored under it; the users are unchanged |
| Storage.MemStorage.GetRecentConversions | server/storage.ts:53-57 | the stored records, newest first, cut at the limit |
| Storage.MemStorage.GetConversionsByName | server/storage.ts:59-64 | the stored records whose name contains the query, ignoring case |

## Left out

- I/O, the routes, the database and the `async` wrappers around the store are not part of this model. The store's methods return their values directly.
- The `sourceLanguage` parameter of convertToKorean, convertSingleName and phoneticConversion is passed along but never read, so the model drops it.
- Text.LowerChar: `toLowerCase` is modelled for ASCII and Latin-1 letters only. Upper-case letters of other scripts (Greek, Cyrillic, Latin Extended-A) are left unchanged, where JavaScript would lower-case them.
- Text.IsWordChar: `\w` is the ASCII class, as JavaScript has it without the `u` flag.
- JavaScript prototype keys (`"constructor"`, `"__proto__"`, …) read through `KOREAN_SURNAMES[name]` and the other records are not modelled. The tables are finite maps holding only their listed entries.
- Phonetic.FragmentsAndRunsRoundTrip: it requires that the name holds no `|`. A `|` in the name would split a fragment, and the interleaving would then drop it.
- The `Syllable` breakdown kind of the source's type is declared in `Transliteration.PartKind`, but no operation produces it.
- Storage.MemStorage.CreateConversion: `new Date()` is a clock reading, so the creation time is a parameter `now` in milliseconds.
- Storage.RecentAreNewest: the limit is an integer or absent. A fractional or NaN limit, which `slice` would truncate or read as 0, is not modelled.
- The shared schema's `users` table has no `username` column, while `getUserByUsername` reads one. The model gives `Storage.User` a `username` field and keeps the rest as opaque attributes.
- The user and conversion schemas' other columns are carried as plain strings; their validation by the schema library is not part of this model.
- Romanizer: `for (const char of korean)` iterates code points, the same unit as Dafny's `char`. Lone surrogates cannot occur in a Dafny string and are not modelled.
- Detection: Greek `"el"` can be detected, but `SUPPORTED_LANGUAGES` has no Greek entry. `TransliterationMaps.DetectedCodesListed` states this gap. It is kept as the source has it, not corrected.

## Findings

| source | as written | input that shows it | evidently intended | confidence | as-written member | corrected member |
|---|---|---|---|---|---|---|
| client/src/lib/transliterationMaps.ts:35 | the kana part of `validNamePattern` lists only the letters of the words ひらがな and カタカナ | "さくら" is rejected with "Name contains invalid characters" | accept the Hiragana and Katakana blocks, U+3040 to U+30FF | not executed | TransliterationMaps.SakuraRejectedAsWritten | TransliterationMaps.CorrectionOnlyWidens |
| server/services/transliteration.ts:392 | the "k" group of the final pronunciation tests index 8, which is ㄹ in `finalChars`, while its comment names ㄺ (index 9) | "발" romanizes to "bak", and 닭 (final ㄺ) loses its final entirely | read ㄺ (9) as "k" and let ㄹ keep "r" | not executed | Romanizer.BalRomanizedAsBak | Romanizer.FinalPronunciationIsCoda |

The operations follow the source as written: `Romanizer.Romanization`,
`Romanizer.GenerateRomanization`, `Transliteration.ConvertToKorean` and
`TransliterationMaps.ValidateNameInput` compute what the code computes. The
corrected definitions (`Romanizer.FinalPronunciationIntended`,
`Romanizer.RomanizationIntended`, `TransliterationMaps.NameCharIntended`,
`TransliterationMaps.ValidateNameInputIntended`) stand beside them so that
each finding can be stated against the intended behaviour.
