/**
 * The client-side helpers of the name converter: the list of supported
 * languages and its lookup by code, the validation of a typed name before
 * it is sent, and the one-line rendering of a conversion's breakdown.
 */
module TransliterationMaps {
  import opened Wrappers
  import opened Text
  import opened Hangul
  import Detection
  import Transliteration

  // ---------------------------------------------------------------------
  // Supported languages
  // ---------------------------------------------------------------------

  /** An entry of SUPPORTED_LANGUAGES. */
  datatype Language = Language(code: string, name: string, flag: string)

  const SupportedLanguages: seq<Language> := [
    Language("auto", "Auto-detect", "\U{1F310}"),
    Language("en", "English", "\U{1F1FA}\U{1F1F8}"),
    Language("es", "Spanish", "\U{1F1EA}\U{1F1F8}"),
    Language("fr", "French", "\U{1F1EB}\U{1F1F7}"),
    Language("de", "German", "\U{1F1E9}\U{1F1EA}"),
    Language("it", "Italian", "\U{1F1EE}\U{1F1F9}"),
    Language("pt", "Portuguese", "\U{1F1F5}\U{1F1F9}"),
    Language("ru", "Russian", "\U{1F1F7}\U{1F1FA}"),
    Language("ja", "Japanese", "\U{1F1EF}\U{1F1F5}"),
    Language("zh", "Chinese", "\U{1F1E8}\U{1F1F3}"),
    Language("ko", "Korean", "\U{1F1F0}\U{1F1F7}"),
    Language("ar", "Arabic", "\U{1F1F8}\U{1F1E6}"),
    Language("hi", "Hindi", "\U{1F1EE}\U{1F1F3}"),
    Language("th", "Thai", "\U{1F1F9}\U{1F1ED}"),
    Language("vi", "Vietnamese", "\U{1F1FB}\U{1F1F3}")
  ]

  /** `languages.find(lang => lang.code === code)`: the first entry with that code, if any. */
  function Find(languages: seq<Language>, code: string): (r: Option<Language>)
    ensures r.Some? ==> exists j :: 0 <= j < |languages| && languages[j] == r.value &&
                          r.value.code == code && forall i :: 0 <= i < j ==> languages[i].code != code
    ensures r.None? <==> forall j :: 0 <= j < |languages| ==> languages[j].code != code
  {
    if languages == [] then None
    else if languages[0].code == code then Some(languages[0])
    else
      var r := Find(languages[1..], code);
      assert r.Some? ==> exists j :: 0 <= j < |languages| && languages[j] == r.value &&
                          r.value.code == code && forall i :: 0 <= i < j ==> languages[i].code != code by {
        if r.Some? {
          var j :| 0 <= j < |languages[1..]| && languages[1..][j] == r.value &&
                   r.value.code == code && forall i :: 0 <= i < j ==> languages[1..][i].code != code;
          assert languages[j + 1] == r.value;
          assert forall i :: 1 <= i < j + 1 ==> languages[i] == languages[1..][i - 1];
        }
      }
      assert r.None? ==> forall j :: 1 <= j < |languages| ==> languages[j] == languages[1..][j - 1];
      r
  }

  /** getLanguageByCode. */
  function LanguageByCode(code: string): Option<Language> {
    Find(SupportedLanguages, code)
  }

  /** With distinct codes, the entry found is the one entry carrying the code. */
  lemma {:induction false} FindUnique(languages: seq<Language>, j: nat)
    requires j < |languages|
    requires forall a, b :: 0 <= a < b < |languages| ==> languages[a].code != languages[b].code
    ensures Find(languages, languages[j].code) == Some(languages[j])
  {
    var r := Find(languages, languages[j].code);
    assert r.Some?;
    var i :| 0 <= i < |languages| && languages[i] == r.value &&
             r.value.code == languages[j].code && forall i' :: 0 <= i' < i ==> languages[i'].code != languages[j].code;
  }

  /** The codes of SUPPORTED_LANGUAGES are pairwise distinct. */
  lemma SupportedCodesDistinct()
    ensures forall a, b :: 0 <= a < b < |SupportedLanguages| ==> SupportedLanguages[a].code != SupportedLanguages[b].code
  {
  }

  /** Every entry of the list is found by its own code. */
  lemma LanguageByOwnCode(j: nat)
    requires j < |SupportedLanguages|
    ensures LanguageByCode(SupportedLanguages[j].code) == Some(SupportedLanguages[j])
  {
    SupportedCodesDistinct();
    FindUnique(SupportedLanguages, j);
  }

  /** The codes of SUPPORTED_LANGUAGES, in order. */
  const ListedCodes: seq<string> :=
    ["auto", "en", "es", "fr", "de", "it", "pt", "ru", "ja", "zh", "ko", "ar", "hi", "th", "vi"]

  lemma CodesOfSupported()
    ensures |SupportedLanguages| == |ListedCodes|
    ensures forall j :: 0 <= j < |SupportedLanguages| ==> SupportedLanguages[j].code == ListedCodes[j]
  {
    forall j | 0 <= j < |SupportedLanguages|
      ensures SupportedLanguages[j].code == ListedCodes[j]
    {
    }
  }

  /** A code no entry carries finds nothing. */
  lemma NotFound(languages: seq<Language>, code: string)
    requires forall j :: 0 <= j < |languages| ==> languages[j].code != code
    ensures Find(languages, code) == None
  {
  }

  /** Greek is not in the list. */
  lemma GreekNotListed()
    ensures LanguageByCode("el") == None
  {
    CodesOfSupported();
    forall j | 0 <= j < |ListedCodes|
      ensures ListedCodes[j] != "el"
    {
    }
    NotFound(SupportedLanguages, "el");
  }

  /**
   * Every code the server's detector returns has an entry, except Greek:
   * "el" is detected but missing from the list, so looking it up finds nothing.
   */
  lemma DetectedCodesListed(code: string)
    requires code in Detection.Codes
    ensures LanguageByCode(code).Some? <==> code != "el"
  {
    if code == "el" {
      GreekNotListed();
    } else {
      CodesOfSupported();
      assert code in ListedCodes;
      var j :| 0 <= j < |ListedCodes| && ListedCodes[j] == code;
      LanguageByOwnCode(j);
    }
  }

  // ---------------------------------------------------------------------
  // validateNameInput
  // ---------------------------------------------------------------------

  /** What validateNameInput returns: a verdict and, when the name is refused, the reason. */
  datatype Validation = Validation(isValid: bool, error: Option<string>)

  const NameRequired := "Name is required"
  const NameTooLong := "Name is too long (max 100 characters)"
  const InvalidCharacters := "Name contains invalid characters"
  const MaxNameLength := 100

  /** `s.length`: UTF-16 code units, two for a character outside the Basic Multilingual Plane. */
  function Utf16Length(s: string): (n: nat)
    ensures n >= |s|
    ensures n == |s| <==> forall k :: 0 <= k < |s| ==> s[k] <= '\U{FFFF}'
  {
    if s == [] then 0
    else
      var n := Utf16Length(s[1..]);
      assert forall k :: 1 <= k < |s| ==> s[k] == s[1..][k - 1];
      (if s[0] <= '\U{FFFF}' then 1 else 2) + n
  }

  /**
   * The classes validNamePattern admits besides its kana: ASCII letters,
   * Latin-1 letters and Latin Extended-A (À-ÿ, Ā-ž), Cyrillic А-я, Hangul
   * syllables, CJK ideographs 一-龯, whitespace, the apostrophe and the hyphen.
   */
  predicate NameCharBase(c: char) {
    ('a' <= c <= 'z') || ('A' <= c <= 'Z') || ('\U{00C0}' <= c <= '\U{00FF}') ||
    ('\U{0100}' <= c <= '\U{017E}') || ('\U{0410}' <= c <= '\U{044F}') ||
    IsSyllable(c) || ('一' <= c <= '龯') || IsSpace(c) || c == '\'' || c == '-'
  }

  /** validNamePattern as written: the kana part lists only the letters of the words ひらがな and カタカナ. */
  predicate NameChar(c: char) {
    NameCharBase(c) || c in "ひらがなカタカナ"
  }

  /** The kana part as evidently intended: the Hiragana and Katakana blocks, U+3040 to U+30FF. */
  predicate NameCharIntended(c: char) {
    NameCharBase(c) || ('\U{3040}' <= c <= '\U{30FF}')
  }

  /** validateNameInput's three checks in order, for a given character class. */
  function Validate(name: string, allowed: char -> bool): (v: Validation)
    ensures v.isValid <==> v.error == None
    ensures v.isValid <==> Trim(name) != [] && Utf16Length(name) <= MaxNameLength &&
                           forall k :: 0 <= k < |name| ==> allowed(name[k])
    ensures Trim(name) == [] ==> v.error == Some(NameRequired)
    ensures Trim(name) != [] && Utf16Length(name) > MaxNameLength ==> v.error == Some(NameTooLong)
    ensures (Trim(name) != [] && Utf16Length(name) <= MaxNameLength &&
             !(forall k :: 0 <= k < |name| ==> allowed(name[k]))) ==> v.error == Some(InvalidCharacters)
  {
    if Trim(name) == [] then Validation(false, Some(NameRequired))
    else if Utf16Length(name) > MaxNameLength then Validation(false, Some(NameTooLong))
    else if !(forall k :: 0 <= k < |name| ==> allowed(name[k])) then Validation(false, Some(InvalidCharacters))
    else Validation(true, None)
  }

  /** validateNameInput, with validNamePattern as written. */
  function ValidateNameInput(name: string): Validation {
    Validate(name, NameChar)
  }

  /** validateNameInput with the kana blocks the pattern evidently intends. */
  function ValidateNameInputIntended(name: string): Validation {
    Validate(name, NameCharIntended)
  }

  /** An accepted name has a non-blank character and at most 100 characters. */
  lemma AcceptedNameShape(name: string)
    requires ValidateNameInput(name).isValid
    ensures 1 <= |name| <= MaxNameLength
    ensures exists k :: 0 <= k < |name| && !IsSpace(name[k])
  {
    TrimEmptyIffAllSpace(name);
  }

  /** A blank name is reported as missing, however long it is. */
  lemma BlankIsRequired(name: string)
    requires forall k :: 0 <= k < |name| ==> IsSpace(name[k])
    ensures ValidateNameInput(name) == Validation(false, Some(NameRequired))
  {
    TrimEmptyIffAllSpace(name);
  }

  /** A character outside the Basic Multilingual Plane is never accepted. */
  lemma AstralRejected(name: string, k: nat)
    requires k < |name| && name[k] > '\U{FFFF}'
    ensures !ValidateNameInput(name).isValid
  {
    assert !NameChar(name[k]);
  }

  /** A run of 1 to 100 Hangul syllables, such as a converted Korean name, is accepted. */
  lemma HangulNameAccepted(name: string)
    requires 1 <= |name| <= MaxNameLength && AllSyllables(name)
    ensures ValidateNameInput(name) == Validation(true, None)
  {
    TrimEmptyIffAllSpace(name);
    assert !IsSpace(name[0]);
  }

  /** The correction only widens the accepted names. */
  lemma CorrectionOnlyWidens(name: string)
    requires ValidateNameInput(name).isValid
    ensures ValidateNameInputIntended(name).isValid
  {
    forall k | 0 <= k < |name|
      ensures NameCharIntended(name[k])
    {
      assert NameChar(name[k]);
    }
  }

  /** さくら (Sakura) is refused, since さ, く and ら are not among the listed kana, and accepted as intended. */
  lemma SakuraRejectedAsWritten()
    ensures ValidateNameInput("さくら") == Validation(false, Some(InvalidCharacters))
    ensures ValidateNameInputIntended("さくら") == Validation(true, None)
  {
    assert !NameChar("さくら"[0]);
    assert !IsSpace("さくら"[0]);
    assert Trim("さくら") != [];
  }

  // ---------------------------------------------------------------------
  // formatKoreanBreakdown
  // ---------------------------------------------------------------------

  /** One breakdown item as `hangul (romanization)`. */
  function Entry(item: Transliteration.CharacterBreakdown): string {
    item.hangul + " (" + item.romanization + ")"
  }

  function Entries(b: seq<Transliteration.CharacterBreakdown>): (e: seq<string>)
    ensures |e| == |b| && forall j :: 0 <= j < |b| ==> e[j] == Entry(b[j])
  {
    seq(|b|, j requires 0 <= j < |b| => Entry(b[j]))
  }

  /** formatKoreanBreakdown: the items joined by " • ". */
  function FormatKoreanBreakdown(b: seq<Transliteration.CharacterBreakdown>): string {
    Join(Entries(b), " • ")
  }

  /** The pieces between the bullets: each item's text, with the spaces around the bullet kept. */
  function Padded(entries: seq<string>): (p: seq<string>)
    ensures |p| == |entries|
  {
    seq(|entries|, j requires 0 <= j < |entries| =>
      (if j > 0 then " " else "") + entries[j] + (if j < |entries| - 1 then " " else ""))
  }

  /** Splitting a character after `c` adds `c` in front of the first piece. */
  lemma SplitCons(c: char, s: string, sep: char)
    requires c != sep
    ensures Split([c] + s, sep) == [[c] + Split(s, sep)[0]] + Split(s, sep)[1..]
  {
    assert ([c] + s)[1..] == s;
  }

  /** The first bullet of a join of two or more pieces, with its surrounding spaces. */
  lemma JoinAtFirstBullet(entries: seq<string>)
    requires |entries| >= 2
    ensures Join(entries, " • ") == (entries[0] + " ") + ['•'] + ([' '] + Join(entries[1..], " • "))
  {
  }

  /** The padded pieces of two or more entries: the first one, then those of the rest with a space in front of the first. */
  lemma PaddedCons(entries: seq<string>)
    requires |entries| >= 2
    ensures var q := Padded(entries[1..]);
            Padded(entries) == [entries[0] + " "] + ([[' '] + q[0]] + q[1..])
  {
    var p := Padded(entries);
    var q := Padded(entries[1..]);
    var r := [entries[0] + " "] + ([[' '] + q[0]] + q[1..]);
    assert p[0] == entries[0] + " " by {
      assert "" + entries[0] + " " == entries[0] + " ";
    }
    forall j | 1 <= j < |entries|
      ensures p[j] == r[j]
    {
      var tail := if j < |entries| - 1 then " " else "";
      assert entries[j] == entries[1..][j - 1];
      if j == 1 {
        assert q[0] == "" + entries[1] + tail;
        assert p[1] == " " + entries[1] + tail;
      } else {
        assert q[j - 1] == " " + entries[j] + tail;
      }
    }
  }

  /** Joining with " • " is joining the padded pieces with "•". */
  lemma {:induction false} SplitAtBullets(entries: seq<string>)
    requires |entries| >= 1
    requires forall j :: 0 <= j < |entries| ==> '•' !in entries[j]
    ensures Split(Join(entries, " • "), '•') == Padded(entries)
    decreases |entries|
  {
    if |entries| == 1 {
      SplitNoSep(entries[0], '•');
      assert Padded(entries)[0] == "" + entries[0] + "" == entries[0];
    } else {
      var tail := Join(entries[1..], " • ");
      SplitAtBullets(entries[1..]);
      JoinAtFirstBullet(entries);
      SplitAfterPiece(entries[0] + " ", '•', [' '] + tail);
      SplitCons(' ', tail, '•');
      PaddedCons(entries);
    }
  }

  /** An empty breakdown renders as the empty string. */
  lemma FormatEmpty()
    ensures FormatKoreanBreakdown([]) == ""
  {
  }

  /**
   * When no Hangul or romanization holds a bullet, cutting the rendering at
   * the bullets gives back each item's `hangul (romanization)`, in order,
   * with the spaces that surround the bullets.
   */
  lemma FormatSplitsBack(b: seq<Transliteration.CharacterBreakdown>)
    requires |b| >= 1
    requires forall j :: 0 <= j < |b| ==> '•' !in b[j].hangul && '•' !in b[j].romanization
    ensures Split(FormatKoreanBreakdown(b), '•') == Padded(Entries(b))
  {
    var e := Entries(b);
    forall j | 0 <= j < |e|
      ensures '•' !in e[j]
    {
      assert e[j] == b[j].hangul + " (" + b[j].romanization + ")";
    }
    SplitAtBullets(e);
  }
}
