/**
 * detectLanguage of the transliteration service: a chain of character
 * class tests, tried in a fixed order, whose first hit names the language;
 * a text that hits none of them is English.  The classes are those of the
 * source's regular expressions: ranges of code points (Hangul syllables,
 * lower-case Cyrillic and Greek, Hiragana, CJK ideographs) and lists of
 * accented Latin letters.  The tests are case-sensitive, as the regular
 * expressions carry no `i` flag.
 */
module Detection {
  import opened Hangul

  /** A regular-expression character class: a range `[lo-hi]` or a list `[xyz]`. */
  datatype CharClass = Range(lo: char, hi: char) | Among(chars: string)

  predicate InClass(c: char, cls: CharClass) {
    match cls
    case Range(lo, hi) => lo <= c <= hi
    case Among(chars) => c in chars
  }

  /** `/[...]/.test(text)`: some character of `text` is in the class. */
  predicate Test(cls: CharClass, text: string) {
    exists k :: 0 <= k < |text| && InClass(text[k], cls)
  }

  const HangulClass := Range('가', '힣')
  const CyrillicClass := Range('а', 'я')
  const GreekClass := Range('α', 'ω')
  const HiraganaClass := Range('あ', 'ん')
  const HanClass := Range('一', '龯')
  const SpanishClass := Among("ñáéíóúü")
  const FrenchClass := Among("çàèùâêîôûë")
  const GermanClass := Among("äöüß")
  const ItalianClass := Among("àèìòùâêîôû")
  const PortugueseClass := Among("ãõçáéíóú")

  /** The language codes detectLanguage can return. */
  const Codes: set<string> := {"ko", "ru", "el", "ja", "zh", "es", "fr", "de", "it", "pt", "en"}

  /** detectLanguage: the first class the text hits names the language, English when none does. */
  function DetectLanguage(text: string): (code: string)
    ensures code in Codes
  {
    if Test(HangulClass, text) then "ko"
    else if Test(CyrillicClass, text) then "ru"
    else if Test(GreekClass, text) then "el"
    else if Test(HiraganaClass, text) then "ja"
    else if Test(HanClass, text) then "zh"
    else if Test(SpanishClass, text) then "es"
    else if Test(FrenchClass, text) then "fr"
    else if Test(GermanClass, text) then "de"
    else if Test(ItalianClass, text) then "it"
    else if Test(PortugueseClass, text) then "pt"
    else "en"
  }

  /** A detection rule: a character class and the code it names. */
  datatype Rule = Rule(cls: CharClass, code: string)

  /** The rules as a table, in the order the source tries them. */
  const Rules: seq<Rule> := [
    Rule(HangulClass, "ko"), Rule(CyrillicClass, "ru"), Rule(GreekClass, "el"),
    Rule(HiraganaClass, "ja"), Rule(HanClass, "zh"), Rule(SpanishClass, "es"),
    Rule(FrenchClass, "fr"), Rule(GermanClass, "de"), Rule(ItalianClass, "it"),
    Rule(PortugueseClass, "pt")
  ]

  /** Reference reading of a rule table: the code of the first rule whose class the text hits, else "en". */
  function FirstMatch(rules: seq<Rule>, text: string): (code: string)
    ensures code == "en" || exists j :: 0 <= j < |rules| && code == rules[j].code
  {
    if rules == [] then "en"
    else if Test(rules[0].cls, text) then rules[0].code
    else FirstMatch(rules[1..], text)
  }

  /** The chain of tests is the first-match reading of the rule table. */
  lemma DetectIsFirstMatch(text: string)
    ensures DetectLanguage(text) == FirstMatch(Rules, text)
  {
    assert Rules[0..] == Rules;
    FirstMatchStep(Rules, text, 0);
    FirstMatchStep(Rules, text, 1);
    FirstMatchStep(Rules, text, 2);
    FirstMatchStep(Rules, text, 3);
    FirstMatchStep(Rules, text, 4);
    FirstMatchStep(Rules, text, 5);
    FirstMatchStep(Rules, text, 6);
    FirstMatchStep(Rules, text, 7);
    FirstMatchStep(Rules, text, 8);
    FirstMatchStep(Rules, text, 9);
  }

  /** Reading the table from rule `i` on: try rule `i`, else read on from rule `i + 1`. */
  lemma FirstMatchStep(rules: seq<Rule>, text: string, i: nat)
    requires i < |rules|
    ensures FirstMatch(rules[i..], text) ==
            if Test(rules[i].cls, text) then rules[i].code else FirstMatch(rules[i + 1..], text)
  {
    assert rules[i..][1..] == rules[i + 1..];
  }

  /** No rule of the table names English. */
  lemma RulesNeverEnglish()
    ensures forall j :: 0 <= j < |Rules| ==> Rules[j].code != "en"
  {
  }

  /** The first rule hit decides, whatever the later rules say. */
  lemma {:induction false} FirstMatchIsFirstHit(rules: seq<Rule>, text: string, j: nat)
    requires j < |rules| && Test(rules[j].cls, text)
    requires forall i :: 0 <= i < j ==> !Test(rules[i].cls, text)
    ensures FirstMatch(rules, text) == rules[j].code
    decreases j
  {
    if j > 0 {
      assert !Test(rules[0].cls, text);
      FirstMatchIsFirstHit(rules[1..], text, j - 1);
    }
  }

  /** With no rule naming "en", the default is returned exactly when no rule is hit. */
  lemma {:induction false} FirstMatchDefault(rules: seq<Rule>, text: string)
    requires forall j :: 0 <= j < |rules| ==> rules[j].code != "en"
    ensures FirstMatch(rules, text) == "en" <==> forall j :: 0 <= j < |rules| ==> !Test(rules[j].cls, text)
    decreases |rules|
  {
    if rules != [] {
      FirstMatchDefault(rules[1..], text);
      if !Test(rules[0].cls, text) {
        assert forall j :: 1 <= j < |rules| ==> rules[j] == rules[1..][j - 1];
      }
    }
  }

  /** English is the answer exactly when no character of the text is in any class. */
  lemma EnglishWhenNothingElse(text: string)
    ensures DetectLanguage(text) == "en" <==>
            forall j, k :: 0 <= j < |Rules| && 0 <= k < |text| ==> !InClass(text[k], Rules[j].cls)
  {
    DetectIsFirstMatch(text);
    RulesNeverEnglish();
    FirstMatchDefault(Rules, text);
  }

  /** Korean is detected exactly when the text holds a precomposed Hangul syllable. */
  lemma KoreanWhenHangul(text: string)
    ensures DetectLanguage(text) == "ko" <==> exists k :: 0 <= k < |text| && IsSyllable(text[k])
  {
    if DetectLanguage(text) == "ko" {
      var k :| 0 <= k < |text| && InClass(text[k], HangulClass);
      assert IsSyllable(text[k]);
    }
  }

  /** ü is claimed by the Spanish class first: German is only ever detected through ä, ö or ß. */
  lemma GermanNeedsUmlautOrEszett(text: string)
    requires DetectLanguage(text) == "de"
    ensures exists k :: 0 <= k < |text| && text[k] in "äöß"
  {
    var k :| 0 <= k < |text| && InClass(text[k], GermanClass);
    assert !InClass(text[k], SpanishClass);
  }

  /** The other accents of the Italian class are French ones: Italian is only detected through ì or ò. */
  lemma ItalianNeedsGraveIOrO(text: string)
    requires DetectLanguage(text) == "it"
    ensures exists k :: 0 <= k < |text| && text[k] in "ìò"
  {
    var k :| 0 <= k < |text| && InClass(text[k], ItalianClass);
    assert !InClass(text[k], FrenchClass);
  }

  /** ç and the acute vowels go to French and Spanish first: Portuguese is only detected through ã or õ. */
  lemma PortugueseNeedsTilde(text: string)
    requires DetectLanguage(text) == "pt"
    ensures exists k :: 0 <= k < |text| && text[k] in "ãõ"
  {
    var k :| 0 <= k < |text| && InClass(text[k], PortugueseClass);
    assert !InClass(text[k], SpanishClass) && !InClass(text[k], FrenchClass);
  }

  /** A class test looks only at which characters occur. */
  lemma TestBySet(cls: CharClass, a: string, b: string)
    requires forall c :: c in a <==> c in b
    ensures Test(cls, a) <==> Test(cls, b)
  {
    if Test(cls, a) {
      var k :| 0 <= k < |a| && InClass(a[k], cls);
      assert a[k] in b;
    }
    if Test(cls, b) {
      var k :| 0 <= k < |b| && InClass(b[k], cls);
      assert b[k] in a;
    }
  }

  /** Detection depends only on the set of characters: order and repetition do not matter. */
  lemma DetectionBySet(a: string, b: string)
    requires forall c :: c in a <==> c in b
    ensures DetectLanguage(a) == DetectLanguage(b)
  {
    forall r | r in Rules
      ensures Test(r.cls, a) <==> Test(r.cls, b)
    {
      TestBySet(r.cls, a, b);
    }
  }

  /** Adding Hangul to any text makes it Korean. */
  lemma HangulDominates(a: string, b: string)
    requires exists k :: 0 <= k < |b| && IsSyllable(b[k])
    ensures DetectLanguage(a + b) == "ko"
  {
    var k :| 0 <= k < |b| && IsSyllable(b[k]);
    assert (a + b)[|a| + k] == b[k];
  }
}
