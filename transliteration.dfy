/**
 * The entry point of the transliteration service (convertToKorean): the
 * name is normalized and split on spaces; the first part is the family
 * name, looked up in the surname table and replaced by 김 when it is not
 * there; every later part goes through the phonetic path; each part is
 * romanized, and the parts are put together into the Korean name, the
 * romanization and the per-part breakdown.
 */
module Transliteration {
  import opened Text
  import opened Hangul
  import opened JamoTables
  import opened Phonetic
  import opened Romanizer

  // ---------------------------------------------------------------------
  // normalizeName
  // ---------------------------------------------------------------------

  /** The accented letters that the clean-up keeps besides `\w` and `\s`. */
  const KeptDiacritics: string := "áàâãäéèêëíìîïóòôõöúùûüñç"

  /** The characters outside `[^\w\s...]`, those that survive the clean-up. */
  predicate IsKept(c: char) {
    IsWordChar(c) || IsSpace(c) || c in KeptDiacritics
  }

  /** `.replace(/[^\w\sáàâ...ç]/g, '')`: every other character is removed. */
  function StripDisallowed(s: string): (r: string)
    ensures |r| <= |s|
    ensures forall k :: 0 <= k < |r| ==> IsKept(r[k])
    ensures forall c :: c in r ==> c in s
    decreases |s|
  {
    if s == [] then []
    else if IsKept(s[0]) then [s[0]] + StripDisallowed(s[1..])
    else StripDisallowed(s[1..])
  }

  /** The length of the run of whitespace that `s` starts with. */
  function SpaceRun(s: string): (n: nat)
    requires s != [] && IsSpace(s[0])
    ensures 1 <= n <= |s|
    ensures n < |s| ==> !IsSpace(s[n])
    decreases |s|
  {
    if |s| >= 2 && IsSpace(s[1]) then 1 + SpaceRun(s[1..]) else 1
  }

  /** `.replace(/\s+/g, ' ')`: every maximal run of whitespace becomes one space. */
  function CollapseSpaces(s: string): (r: string)
    ensures |r| <= |s|
    ensures s != [] ==> r != [] && r[0] == (if IsSpace(s[0]) then ' ' else s[0])
    ensures forall k :: 0 <= k < |r| && IsSpace(r[k]) ==> r[k] == ' '
    ensures forall k :: 0 <= k < |r| - 1 ==> !(r[k] == ' ' && r[k + 1] == ' ')
    ensures forall c :: c in r ==> c in s || c == ' '
    decreases |s|
  {
    if s == [] then []
    else if IsSpace(s[0]) then
      var rest := CollapseSpaces(s[SpaceRun(s)..]);
      assert forall c :: c in rest ==> c in s || c == ' ';
      " " + rest
    else
      var rest := CollapseSpaces(s[1..]);
      assert forall c :: c in rest ==> c in s || c == ' ';
      [s[0]] + rest
  }

  /** normalizeName: trim, lower-case, remove the characters outside the kept classes, collapse whitespace. */
  function NormalizeName(name: string): string {
    CollapseSpaces(StripDisallowed(Lower(Trim(name))))
  }

  /**
   * A normalized name is no longer than the name, holds only kept,
   * lower-case characters, its only whitespace is the plain space, and no
   * two spaces in it are adjacent.
   */
  lemma NormalizedShape(name: string)
    ensures |NormalizeName(name)| <= |name|
    ensures forall k :: 0 <= k < |NormalizeName(name)| ==> IsKept(NormalizeName(name)[k]) && !IsUpperLatin(NormalizeName(name)[k])
    ensures forall k :: 0 <= k < |NormalizeName(name)| && IsSpace(NormalizeName(name)[k]) ==> NormalizeName(name)[k] == ' '
    ensures forall k :: 0 <= k < |NormalizeName(name)| - 1 ==> !(NormalizeName(name)[k] == ' ' && NormalizeName(name)[k + 1] == ' ')
  {
    var lowered := Lower(Trim(name));
    var stripped := StripDisallowed(lowered);
    var r := CollapseSpaces(stripped);
    forall k | 0 <= k < |r| ensures IsKept(r[k]) && !IsUpperLatin(r[k]) {
      assert r[k] in r;
      if r[k] != ' ' {
        var m :| 0 <= m < |stripped| && stripped[m] == r[k];
        var p :| 0 <= p < |lowered| && lowered[p] == stripped[m];
      }
    }
  }

  /**
   * Trimming comes before the clean-up, so a character removed next to
   * the end can leave a trailing space behind: "a !" normalizes to "a ".
   */
  lemma TrailingSpaceSurvives()
    ensures NormalizeName("a !") == "a "
  {
    TrimLowerExample();
    StripExample();
    CollapseExample();
  }

  // The three steps of TrailingSpaceSurvives, one lemma each: proved
  // together in one lemma they cost the verifier several times as much.

  /** Step 1: trimming and lower-casing leave "a !" as it is. */
  lemma TrimLowerExample()
    ensures Trim("a !") == "a !" && Lower("a !") == "a !"
  {
    var name := "a !";
    assert name[1..] == " !" && name[..|name| - 1] == "a ";
    assert TrimStart(name) == name;
    assert TrimEnd(name) == name;
  }

  /** Step 2: the clean-up removes the `!` and keeps the space before it. */
  lemma StripExample()
    ensures StripDisallowed("a !") == "a "
  {
    var name := "a !";
    assert name[1..] == " !" && name[1..][1..] == "!";
    assert !IsKept('!');
    assert StripDisallowed("!") == [];
    assert StripDisallowed(" !") == " ";
  }

  /** Step 3: collapsing whitespace leaves the single trailing space. */
  lemma CollapseExample()
    ensures CollapseSpaces("a ") == "a "
  {
    assert "a "[1..] == " ";
    assert CollapseSpaces(" ") == " ";
  }

  // ---------------------------------------------------------------------
  // The tables and convertSingleName
  // ---------------------------------------------------------------------

  /**
   * The service's static tables as one value.  The operations take it as a
   * parameter; the service itself always uses `ServiceTables`.
   */
  datatype Tables = Tables(surnames: map<string, string>, patterns: seq<PhoneticPattern>, spelling: Spelling)

  const ServiceTables: Tables := Tables(KoreanSurnames, PhoneticPatterns, SpellingTables)

  /** Every surname entry is a non-empty run of precomposed syllables. */
  ghost predicate SurnamesAreHangul(surnames: map<string, string>) {
    forall k :: k in surnames ==> surnames[k] != "" && AllSyllables(surnames[k])
  }

  /** The service's surname table has only Hangul entries and no entry for the empty name. */
  lemma ServiceSurnamesFacts()
    ensures SurnamesAreHangul(ServiceTables.surnames)
    ensures "" !in ServiceTables.surnames
  {
    SurnamesAreSyllables();
    NoEmptySurname();
  }

  /** The service's spelling tables are well formed and no pattern inserts 으. */
  lemma ServicePhoneticFacts()
    ensures WellFormed(ServiceTables.spelling)
    ensures forall j :: 0 <= j < |ServiceTables.patterns| ==> '으' !in ServiceTables.patterns[j].replacement
  {
    SpellingTablesWellFormed();
    PatternTableFacts();
  }

  /**
   * What convertSingleName returns: the family part is the surname
   * table's entry when it has a non-empty one, or else 김; a given part is
   * converted phonetically.
   */
  function SingleName(t: Tables, name: string, isFamily: bool): string {
    if isFamily && name in t.surnames && t.surnames[name] != "" then t.surnames[name]
    else if isFamily then "김"
    else PhoneticSpec(t.patterns, t.spelling, name)
  }

  /** Every part converts to precomposed syllables, and a family part never to nothing. */
  lemma SingleNameIsHangul(t: Tables, name: string, isFamily: bool)
    requires SurnamesAreHangul(t.surnames)
    ensures AllSyllables(SingleName(t, name, isFamily))
    ensures isFamily ==> SingleName(t, name, isFamily) != []
  {
    PhoneticIsHangul(t.patterns, t.spelling, name);
  }

  /** convertSingleName, running the phonetic path as a method. */
  method ConvertSingleName(t: Tables, name: string, isFamily: bool) returns (r: string)
    ensures r == SingleName(t, name, isFamily)
  {
    if isFamily && name in t.surnames && t.surnames[name] != "" {
      return t.surnames[name];
    }
    if isFamily {
      return "김";
    }
    r := PhoneticConversion(t.patterns, t.spelling, name);
  }

  // ---------------------------------------------------------------------
  // convertToKorean
  // ---------------------------------------------------------------------

  /** The `type` of a breakdown entry; the service never produces `Syllable`. */
  datatype PartKind = Family | Given | Syllable

  datatype CharacterBreakdown = CharacterBreakdown(hangul: string, romanization: string, kind: PartKind)

  /** The object convertToKorean returns. */
  datatype Conversion = Conversion(koreanName: string, romanization: string, breakdown: seq<CharacterBreakdown>)

  /** The breakdown entry for one part. */
  function PartBreakdown(t: Tables, part: string, isFirstPart: bool): CharacterBreakdown {
    var korean := SingleName(t, part, isFirstPart);
    CharacterBreakdown(korean, Romanization(korean), if isFirstPart then Family else Given)
  }

  /** The breakdown entries of all parts, the first one as the family name. */
  function Breakdown(t: Tables, parts: seq<string>): (b: seq<CharacterBreakdown>)
    ensures |b| == |parts|
    ensures forall j :: 0 <= j < |parts| ==> b[j] == PartBreakdown(t, parts[j], j == 0)
  {
    seq(|parts|, j requires 0 <= j < |parts| => PartBreakdown(t, parts[j], j == 0))
  }

  function HangulOf(b: seq<CharacterBreakdown>): (r: seq<string>)
    ensures |r| == |b| && forall j :: 0 <= j < |b| ==> r[j] == b[j].hangul
  {
    seq(|b|, j requires 0 <= j < |b| => b[j].hangul)
  }

  function RomanizationsOf(b: seq<CharacterBreakdown>): (r: seq<string>)
    ensures |r| == |b| && forall j :: 0 <= j < |b| ==> r[j] == b[j].romanization
  {
    seq(|b|, j requires 0 <= j < |b| => b[j].romanization)
  }

  /** The space-separated parts of the normalized name. */
  function NameParts(name: string): (parts: seq<string>)
    ensures |parts| >= 1
  {
    Split(NormalizeName(name), ' ')
  }

  /** The result built from the breakdown entries: their Hangul run together, their romanizations joined by a space. */
  function ConversionOf(b: seq<CharacterBreakdown>): Conversion {
    Conversion(Join(HangulOf(b), ""), Join(RomanizationsOf(b), " "), b)
  }

  /** What convertToKorean returns for `name`. */
  function Converted(t: Tables, name: string): Conversion {
    ConversionOf(Breakdown(t, NameParts(name)))
  }

  /** After `index` parts, the three lists hold the entries of those parts. */
  ghost predicate ConvertInvariant(t: Tables, parts: seq<string>, index: nat,
                                   koreanParts: seq<string>, romanizationParts: seq<string>, breakdown: seq<CharacterBreakdown>)
  {
    index <= |parts| && breakdown == Breakdown(t, parts)[..index] &&
    koreanParts == HangulOf(breakdown) && romanizationParts == RomanizationsOf(breakdown)
  }

  /** One iteration of the forEach: push the part's Hangul, its romanization and its entry. */
  lemma ConvertStep(t: Tables, parts: seq<string>, index: nat,
                    koreanParts: seq<string>, romanizationParts: seq<string>, breakdown: seq<CharacterBreakdown>,
                    entry: CharacterBreakdown)
    requires index < |parts| && ConvertInvariant(t, parts, index, koreanParts, romanizationParts, breakdown)
    requires entry == PartBreakdown(t, parts[index], index == 0)
    ensures ConvertInvariant(t, parts, index + 1, koreanParts + [entry.hangul], romanizationParts + [entry.romanization],
                             breakdown + [entry])
  {
    TakeOneMore(Breakdown(t, parts), index, entry);
    EntriesAppend(breakdown, entry);
  }

  /** The entry pushed for a part is its breakdown entry. */
  lemma PartEntry(t: Tables, part: string, isFirstPart: bool, korean: string, romanization: string)
    requires korean == SingleName(t, part, isFirstPart) && romanization == Romanization(korean)
    ensures PartBreakdown(t, part, isFirstPart) == CharacterBreakdown(korean, romanization, if isFirstPart then Family else Given)
  {
  }

  /** Taking one more element of a list appends that element. */
  lemma TakeOneMore<T>(s: seq<T>, i: nat, x: T)
    requires i < |s| && s[i] == x
    ensures s[..i + 1] == s[..i] + [x]
  {
  }

  /** Pushing an entry pushes its Hangul and its romanization. */
  lemma EntriesAppend(b: seq<CharacterBreakdown>, entry: CharacterBreakdown)
    ensures HangulOf(b + [entry]) == HangulOf(b) + [entry.hangul]
    ensures RomanizationsOf(b + [entry]) == RomanizationsOf(b) + [entry.romanization]
  {
  }

  /** After the last part the entries are those of all the parts. */
  lemma ConvertDone(t: Tables, parts: seq<string>,
                    koreanParts: seq<string>, romanizationParts: seq<string>, breakdown: seq<CharacterBreakdown>)
    requires ConvertInvariant(t, parts, |parts|, koreanParts, romanizationParts, breakdown)
    ensures breakdown == Breakdown(t, parts)
    ensures koreanParts == HangulOf(breakdown) && romanizationParts == RomanizationsOf(breakdown)
  {
    var b := Breakdown(t, parts);
    assert b[..|b|] == b;
  }

  /** convertToKorean: the forEach over the parts, pushing into the three lists. */
  method ConvertToKorean(t: Tables, name: string) returns (r: Conversion)
    ensures r == Converted(t, name)
  {
    var normalizedName := NormalizeName(name);
    var parts := Split(normalizedName, ' ');
    var koreanParts: seq<string> := [];
    var romanizationParts: seq<string> := [];
    var breakdown: seq<CharacterBreakdown> := [];
    for index := 0 to |parts|
      invariant ConvertInvariant(t, parts, index, koreanParts, romanizationParts, breakdown)
    {
      var isFirstPart := index == 0;
      var korean := ConvertSingleName(t, parts[index], isFirstPart);
      var romanization := GenerateRomanization(korean);
      var entry := CharacterBreakdown(korean, romanization, if isFirstPart then Family else Given);
      PartEntry(t, parts[index], isFirstPart, korean, romanization);
      ConvertStep(t, parts, index, koreanParts, romanizationParts, breakdown, entry);
      koreanParts := koreanParts + [korean];
      romanizationParts := romanizationParts + [romanization];
      breakdown := breakdown + [entry];
    }
    ConvertDone(t, parts, koreanParts, romanizationParts, breakdown);
    r := Conversion(Join(koreanParts, ""), Join(romanizationParts, " "), breakdown);
    assert r == ConversionOf(breakdown);
  }

  // ---------------------------------------------------------------------
  // Properties of the conversion
  // ---------------------------------------------------------------------

  /**
   * One breakdown entry per space-separated part, in order: the first is
   * the family name (the surname table's entry or 김, never the phonetic
   * path), every later one a given name converted phonetically without
   * consulting the surname table; each carries its own romanization.
   */
  lemma BreakdownShape(t: Tables, name: string)
    requires SurnamesAreHangul(t.surnames)
    ensures |Converted(t, name).breakdown| == |NameParts(name)| >= 1
    ensures Converted(t, name).breakdown[0].kind == Family
    ensures NameParts(name)[0] in t.surnames ==>
      Converted(t, name).breakdown[0].hangul == t.surnames[NameParts(name)[0]]
    ensures NameParts(name)[0] !in t.surnames ==> Converted(t, name).breakdown[0].hangul == "김"
    ensures forall j :: 1 <= j < |NameParts(name)| ==>
      Converted(t, name).breakdown[j].kind == Given &&
      Converted(t, name).breakdown[j].hangul == PhoneticSpec(t.patterns, t.spelling, NameParts(name)[j])
    ensures forall j :: 0 <= j < |NameParts(name)| ==>
      Converted(t, name).breakdown[j].romanization == Romanization(Converted(t, name).breakdown[j].hangul)
  {
    var parts := NameParts(name);
    var b := Breakdown(t, parts);
    assert Converted(t, name).breakdown == b;
    assert b[0] == PartBreakdown(t, parts[0], true);
    forall j | 0 <= j < |parts|
      ensures b[j].romanization == Romanization(b[j].hangul)
      ensures j >= 1 ==> b[j].kind == Given && b[j].hangul == PhoneticSpec(t.patterns, t.spelling, parts[j])
    {
      assert b[j] == PartBreakdown(t, parts[j], j == 0);
    }
  }

  /**
   * The Korean name is the parts' Hangul run together, and the
   * romanization is the parts' romanizations joined by one space; since a
   * part's romanization holds no space, splitting the romanization on
   * spaces gives the parts' romanizations back.
   */
  lemma NameAndRomanizationFromParts(t: Tables, name: string)
    requires SurnamesAreHangul(t.surnames)
    ensures Converted(t, name).koreanName == Join(HangulOf(Converted(t, name).breakdown), "")
    ensures Converted(t, name).romanization == Join(RomanizationsOf(Converted(t, name).breakdown), " ")
    ensures Split(Converted(t, name).romanization, ' ') == RomanizationsOf(Converted(t, name).breakdown)
  {
    var parts := NameParts(name);
    var b := Converted(t, name).breakdown;
    var rs := RomanizationsOf(b);
    forall j | 0 <= j < |rs| ensures ' ' !in rs[j] {
      assert b[j] == PartBreakdown(t, parts[j], j == 0);
      SingleNameIsHangul(t, parts[j], j == 0);
      RomanizationHasNoSpace(b[j].hangul);
    }
    JoinSplit(rs, ' ');
  }

  /** A romanization of Hangul syllables holds no space. */
  lemma RomanizationHasNoSpace(korean: string)
    requires AllSyllables(korean)
    ensures ' ' !in Romanization(korean)
  {
    SyllablesRomanizeLowercase(korean);
    var r := Romanization(korean);
    forall k | 0 <= k < |r| ensures r[k] != ' ' {
      assert IsLowerAscii(r[k]);
    }
  }

  /** Parts made of syllables join into a string of syllables. */
  lemma {:induction false} JoinOfSyllables(parts: seq<string>)
    requires forall j :: 0 <= j < |parts| ==> AllSyllables(parts[j])
    ensures AllSyllables(Join(parts, ""))
    decreases |parts|
  {
    if |parts| > 1 {
      JoinOfSyllables(parts[1..]);
      assert Join(parts, "") == parts[0] + Join(parts[1..], "");
    }
  }

  /** Entries whose Hangul is made of syllables, the first one non-empty, join into a non-empty string of syllables. */
  lemma HangulOfEntries(b: seq<CharacterBreakdown>)
    requires |b| >= 1 && b[0].hangul != []
    requires forall j :: 0 <= j < |b| ==> AllSyllables(b[j].hangul)
    ensures AllSyllables(Join(HangulOf(b), "")) && Join(HangulOf(b), "") != []
  {
    var hs := HangulOf(b);
    JoinOfSyllables(hs);
    if |hs| > 1 {
      assert Join(hs, "") == hs[0] + Join(hs[1..], "");
    }
  }

  /** The Korean name is made of precomposed syllables only, and it is never empty. */
  lemma KoreanNameIsHangul(t: Tables, name: string)
    requires SurnamesAreHangul(t.surnames)
    ensures AllSyllables(Converted(t, name).koreanName)
    ensures Converted(t, name).koreanName != []
  {
    var parts := NameParts(name);
    var b := Breakdown(t, parts);
    forall j | 0 <= j < |b| ensures AllSyllables(b[j].hangul) && (j == 0 ==> b[j].hangul != []) {
      assert b[j] == PartBreakdown(t, parts[j], j == 0);
      SingleNameIsHangul(t, parts[j], j == 0);
    }
    HangulOfEntries(b);
  }

  /** The empty name normalizes to the empty string, which is one empty part. */
  lemma EmptyNameParts()
    ensures NameParts("") == [""]
  {
    assert Trim("") == "";
    assert NormalizeName("") == "";
  }

  /** The one empty part, as the family name, is 김 romanized "gim". */
  lemma EmptyPartBreakdown(t: Tables)
    requires "" !in t.surnames
    ensures Breakdown(t, [""]) == [CharacterBreakdown("김", "gim", Family)]
  {
    KimRomanizesToGim();
    assert PartBreakdown(t, "", true) == CharacterBreakdown("김", "gim", Family);
  }

  /** Empty input is not an error: the family part is empty, so the name is 김, romanized "gim". */
  lemma EmptyNameGivesKim(t: Tables)
    requires "" !in t.surnames
    ensures Converted(t, "") == Conversion("김", "gim", [CharacterBreakdown("김", "gim", Family)])
  {
    EmptyNameParts();
    EmptyPartBreakdown(t);
  }
}
