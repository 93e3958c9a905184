/**
 * The phonetic path of the transliteration service (phoneticConversion):
 * the ordered rewrite patterns, the split of the rewritten name into runs of
 * precomposed syllables and the Latin fragments between them, the
 * re-interleaving of the converted fragments with the runs, and the three
 * clean-up replacements of postProcessKorean.
 */
module Phonetic {
  import opened Wrappers
  import opened Text
  import opened Hangul
  import opened JamoTables
  import opened Tokenizer

  // ---------------------------------------------------------------------
  // PHONETIC_PATTERNS and String.prototype.replace with a non-global regex
  // ---------------------------------------------------------------------

  /** Where a pattern may match: `^` (start), `$` (end) or anywhere. */
  datatype Anchor = AtStart | AtEnd | Anywhere

  /**
   * One entry of PHONETIC_PATTERNS.  The regexes carry the `i` flag; the
   * name is lower-cased before the patterns run and the replacements hold
   * no Latin letters, so matching the lower-case text is the same.
   */
  datatype PhoneticPattern = PhoneticPattern(anchor: Anchor, text: string, replacement: string)

  const PhoneticPatterns: seq<PhoneticPattern> := [
    PhoneticPattern(AtStart, "mc", "맥"),
    PhoneticPattern(AtStart, "mac", "맥"),
    PhoneticPattern(AtStart, "o'", "오"),
    PhoneticPattern(AtEnd, "son", "슨"),
    PhoneticPattern(AtEnd, "sen", "센"),
    PhoneticPattern(AtEnd, "ton", "톤"),
    PhoneticPattern(AtEnd, "tion", "션"),
    PhoneticPattern(AtEnd, "sion", "션"),
    PhoneticPattern(AtEnd, "ck", "크"),
    PhoneticPattern(Anywhere, "gh", "ㄱ"),
    PhoneticPattern(Anywhere, "ph", "ㅍ"),
    PhoneticPattern(Anywhere, "th", "ㅅ"),
    PhoneticPattern(Anywhere, "sh", "ㅅ"),
    PhoneticPattern(Anywhere, "ch", "ㅊ"),
    PhoneticPattern(Anywhere, "ng", "ㅇ"),
    PhoneticPattern(Anywhere, "nk", "ㅇㄱ"),
    PhoneticPattern(Anywhere, "mp", "ㅁㅂ"),
    PhoneticPattern(Anywhere, "nd", "ㄴㄷ"),
    PhoneticPattern(Anywhere, "nt", "ㄴㅌ"),
    PhoneticPattern(Anywhere, "ll", "ㄹ"),
    PhoneticPattern(Anywhere, "rr", "ㄹ"),
    PhoneticPattern(Anywhere, "ss", "ㅅ"),
    PhoneticPattern(Anywhere, "tt", "ㅌ"),
    PhoneticPattern(Anywhere, "ff", "ㅍ"),
    PhoneticPattern(Anywhere, "pp", "ㅂ"),
    PhoneticPattern(Anywhere, "bb", "ㅂ"),
    PhoneticPattern(Anywhere, "dd", "ㄷ"),
    PhoneticPattern(Anywhere, "gg", "ㄱ"),
    PhoneticPattern(Anywhere, "kk", "ㄱ")
  ]

  /** The leftmost position at or after `from` where `sub` occurs in `s`, as a regex search finds it. */
  function FirstOccurrence(s: string, sub: string, from: nat): (k: Option<nat>)
    ensures k.Some? ==> from <= k.value && OccursAt(s, sub, k.value)
    ensures k.Some? ==> forall j :: from <= j < k.value ==> !OccursAt(s, sub, j)
    ensures k.None? ==> forall j :: from <= j ==> !OccursAt(s, sub, j)
    decreases |s| - from
  {
    if from + |sub| > |s| then None
    else if s[from..from + |sub|] == sub then Some(from)
    else FirstOccurrence(s, sub, from + 1)
  }

  /**
   * `s.replace(pattern, replacement)` for one pattern: only the first match
   * is replaced, and an anchored pattern can only match at its end of the
   * string.  The replacements contain no `$`, so they are inserted as they are.
   */
  function ApplyPattern(s: string, p: PhoneticPattern): (r: string)
    ensures r == s || |r| == |s| - |p.text| + |p.replacement|
    ensures forall c :: c in r ==> c in s || c in p.replacement
  {
    match p.anchor
    case AtStart =>
      if |p.text| <= |s| && s[..|p.text|] == p.text then p.replacement + s[|p.text|..] else s
    case AtEnd =>
      if |p.text| <= |s| && s[|s| - |p.text|..] == p.text then s[..|s| - |p.text|] + p.replacement else s
    case Anywhere =>
      match FirstOccurrence(s, p.text, 0)
      case None => s
      case Some(k) => s[..k] + p.replacement + s[k + |p.text|..]
  }

  /** An unanchored pattern rewrites exactly its leftmost occurrence, and a string without one is left alone. */
  lemma ReplacesLeftmostOccurrence(s: string, p: PhoneticPattern, k: nat)
    requires p.anchor == Anywhere && OccursAt(s, p.text, k)
    requires forall j :: 0 <= j < k ==> !OccursAt(s, p.text, j)
    ensures ApplyPattern(s, p) == s[..k] + p.replacement + s[k + |p.text|..]
  {
  }

  /** The rewrite pass: the patterns `ps` in order, each applied to the result of the ones before it. */
  function ApplyPatterns(s: string, ps: seq<PhoneticPattern>): string
  {
    if ps == [] then s else ApplyPattern(ApplyPatterns(s, ps[..|ps| - 1]), ps[|ps| - 1])
  }

  /** A character that is in neither the name nor any replacement is not in the rewritten name. */
  lemma {:induction false} RewriteKeepsOut(s: string, ps: seq<PhoneticPattern>, c: char)
    requires c !in s
    requires forall j :: 0 <= j < |ps| ==> c !in ps[j].replacement
    ensures c !in ApplyPatterns(s, ps)
    decreases |ps|
  {
    if ps != [] {
      RewriteKeepsOut(s, ps[..|ps| - 1], c);
    }
  }

  /** Patterns whose replacements are no longer than what they replace never lengthen the name. */
  lemma {:induction false} RewriteNeverLengthens(s: string, ps: seq<PhoneticPattern>)
    requires forall j :: 0 <= j < |ps| ==> |ps[j].replacement| <= |ps[j].text|
    ensures |ApplyPatterns(s, ps)| <= |s|
    decreases |ps|
  {
    if ps != [] {
      RewriteNeverLengthens(s, ps[..|ps| - 1]);
    }
  }

  /** No pattern makes the name longer, none inserts 으, and none inserts the `|` used to split. */
  lemma PatternTableFacts()
    ensures forall j :: 0 <= j < |PhoneticPatterns| ==> |PhoneticPatterns[j].replacement| <= |PhoneticPatterns[j].text|
    ensures forall j :: 0 <= j < |PhoneticPatterns| ==> '으' !in PhoneticPatterns[j].replacement
    ensures forall j :: 0 <= j < |PhoneticPatterns| ==> '|' !in PhoneticPatterns[j].replacement
  {
  }

  /** The rewrite pass never makes the name longer. */
  lemma RewriteNeverLonger(name: string)
    ensures |ApplyPatterns(Lower(name), PhoneticPatterns)| <= |name|
  {
    PatternTableFacts();
    RewriteNeverLengthens(Lower(name), PhoneticPatterns);
  }

  /** The loop of phoneticConversion over the patterns, on the lower-cased name. */
  method RewriteWithPatterns(patterns: seq<PhoneticPattern>, name: string) returns (processedName: string)
    ensures processedName == ApplyPatterns(Lower(name), patterns)
  {
    processedName := Lower(name);
    for k := 0 to |patterns|
      invariant processedName == ApplyPatterns(Lower(name), patterns[..k])
    {
      assert patterns[..k + 1][..k] == patterns[..k];
      processedName := ApplyPattern(processedName, patterns[k]);
    }
    assert patterns[..|patterns|] == patterns;
  }

  // ---------------------------------------------------------------------
  // Runs of precomposed syllables and the fragments between them
  // ---------------------------------------------------------------------

  /** The length of the run of precomposed syllables that `s` starts with. */
  function RunLength(s: string): (n: nat)
    ensures n <= |s|
    ensures forall j :: 0 <= j < n ==> IsSyllable(s[j])
    ensures n < |s| ==> !IsSyllable(s[n])
  {
    if s != [] && IsSyllable(s[0]) then 1 + RunLength(s[1..]) else 0
  }

  /** `s.match(/[가-힣]+/g) || []`: the maximal runs of syllables, in order. */
  function HangulRuns(s: string): (runs: seq<string>)
    ensures forall j :: 0 <= j < |runs| ==> runs[j] != "" && AllSyllables(runs[j])
    decreases |s|
  {
    if s == [] then []
    else if IsSyllable(s[0]) then
      var n := RunLength(s);
      [s[..n]] + HangulRuns(s[n..])
    else HangulRuns(s[1..])
  }

  /** `s.replace(/[가-힣]+/g, '|')`: every maximal run of syllables becomes one `|`. */
  function BarForRuns(s: string): (r: string)
    ensures forall j :: 0 <= j < |r| ==> !IsSyllable(r[j])
    decreases |s|
  {
    if s == [] then []
    else if IsSyllable(s[0]) then "|" + BarForRuns(s[RunLength(s)..])
    else [s[0]] + BarForRuns(s[1..])
  }

  /** The non-Korean fragments of the source: the pieces between the bars. */
  function LatinFragments(s: string): (parts: seq<string>)
    ensures |parts| >= 1
    ensures forall j, k :: 0 <= j < |parts| && 0 <= k < |parts[j]| ==> !IsSyllable(parts[j][k])
  {
    var b := BarForRuns(s);
    var parts := Split(b, '|');
    SplitJoin(b, '|');
    forall j, k | 0 <= j < |parts| && 0 <= k < |parts[j]| ensures !IsSyllable(parts[j][k]) {
      PieceCharInJoin(parts, j, k, "|");
    }
    parts
  }

  /** A character of one piece is a character of the joined string. */
  lemma {:induction false} PieceCharInJoin(parts: seq<string>, j: nat, k: nat, sep: string)
    requires j < |parts| && k < |parts[j]|
    ensures parts[j][k] in Join(parts, sep)
  {
    if |parts| > 1 {
      if j == 0 {
        assert Join(parts, sep) == parts[0] + (sep + Join(parts[1..], sep));
      } else {
        PieceCharInJoin(parts[1..], j - 1, k, sep);
        assert Join(parts, sep) == (parts[0] + sep) + Join(parts[1..], sep);
      }
    }
  }

  /**
   * The loop of phoneticConversion over the fragments: each piece is
   * followed by the run with the same index, while there is one.  Runs
   * beyond the last piece would be dropped, but there are never any
   * (see `FragmentsOutnumberRuns`).
   */
  function Interleave(pieces: seq<string>, runs: seq<string>): (r: string)
    decreases |pieces|
  {
    if pieces == [] then ""
    else if runs == [] then pieces[0] + Interleave(pieces[1..], [])
    else pieces[0] + runs[0] + Interleave(pieces[1..], runs[1..])
  }

  /** Every run is put back: there is always at least one more fragment than runs. */
  lemma {:induction false} FragmentsOutnumberRuns(s: string)
    ensures |LatinFragments(s)| >= |HangulRuns(s)| + 1
    decreases |s|
  {
    if s != [] {
      if IsSyllable(s[0]) {
        var n := RunLength(s);
        FragmentsOutnumberRuns(s[n..]);
        assert BarForRuns(s) == "|" + BarForRuns(s[n..]);
        SplitAfterPiece("", '|', BarForRuns(s[n..]));
        assert "" + "|" + BarForRuns(s[n..]) == BarForRuns(s);
      } else {
        FragmentsOutnumberRuns(s[1..]);
        assert BarForRuns(s) == [s[0]] + BarForRuns(s[1..]);
        assert (BarForRuns(s))[1..] == BarForRuns(s[1..]);
      }
    }
  }

  /** Prepending to the first piece prepends to the interleaving. */
  lemma InterleavePrepend(x: string, p: string, pieces: seq<string>, runs: seq<string>)
    ensures Interleave([x + p] + pieces, runs) == x + Interleave([p] + pieces, runs)
  {
    assert ([x + p] + pieces)[1..] == pieces;
    assert ([p] + pieces)[1..] == pieces;
  }

  /**
   * Splitting a name into fragments and runs loses nothing: putting the
   * fragments back between the runs gives the name again, provided the name
   * holds no `|` of its own (a `|` in the name would split a fragment).
   */
  lemma {:induction false} FragmentsAndRunsRoundTrip(s: string)
    requires '|' !in s
    ensures Interleave(LatinFragments(s), HangulRuns(s)) == s
    decreases |s|
  {
    if s == [] {
      assert Split("", '|') == [""];
    } else if IsSyllable(s[0]) {
      var n := RunLength(s);
      var rest := s[n..];
      assert '|' !in rest by {
        forall j | 0 <= j < |rest| ensures rest[j] != '|' { assert rest[j] == s[n + j]; }
      }
      FragmentsAndRunsRoundTrip(rest);
      var b := BarForRuns(rest);
      assert BarForRuns(s) == "|" + b;
      assert ("|" + b)[1..] == b;
      assert Split("|" + b, '|') == [""] + Split(b, '|');
      assert HangulRuns(s) == [s[..n]] + HangulRuns(rest);
      assert ([""] + Split(b, '|'))[1..] == Split(b, '|');
      assert ([s[..n]] + HangulRuns(rest))[1..] == HangulRuns(rest);
      assert Interleave(LatinFragments(s), HangulRuns(s)) == "" + s[..n] + Interleave(Split(b, '|'), HangulRuns(rest));
      assert s[..n] + rest == s;
    } else {
      var rest := s[1..];
      assert '|' !in rest;
      FragmentsAndRunsRoundTrip(rest);
      var b := BarForRuns(rest);
      assert BarForRuns(s) == [s[0]] + b;
      var parts := Split(b, '|');
      assert ([s[0]] + b)[1..] == b;
      assert Split([s[0]] + b, '|') == [[s[0]] + parts[0]] + parts[1..];
      assert HangulRuns(s) == HangulRuns(rest);
      InterleavePrepend([s[0]], parts[0], parts[1..], HangulRuns(rest));
      assert [parts[0]] + parts[1..] == parts;
      assert [s[0]] + rest == s;
    }
  }

  // ---------------------------------------------------------------------
  // postProcessKorean
  // ---------------------------------------------------------------------

  /** The compatibility consonants ㄱ (U+3131) to ㅎ (U+314E), the class `[ㄱ-ㅎ]`. */
  predicate IsJamoConsonant(c: char) {
    'ㄱ' <= c <= 'ㅎ'
  }

  /** The characters that `.` does not match. */
  predicate IsLineTerminator(c: char) {
    c == '\n' || c == '\r' || c == '\U{2028}' || c == '\U{2029}'
  }

  /** `.replace(/으$/, '')`: one trailing 으 is dropped. */
  function StripTrailingEu(s: string): (r: string)
    ensures r == s || (s == r + "으")
    ensures s != [] && s[|s| - 1] == '으' ==> |r| == |s| - 1
  {
    if s != [] && s[|s| - 1] == '으' then s[..|s| - 1] else s
  }

  /**
   * `.replace(/([ㄱ-ㅎ])으/g, '$1')`: scanning left to right, a consonant
   * jamo followed by 으 loses the 으; the scan resumes after the pair.
   */
  function DropEuAfterConsonant(s: string): (r: string)
    ensures |r| <= |s|
    ensures forall c :: c in r ==> c in s
    decreases |s|
  {
    if |s| >= 2 && IsJamoConsonant(s[0]) && s[1] == '으' then [s[0]] + DropEuAfterConsonant(s[2..])
    else if s == [] then []
    else [s[0]] + DropEuAfterConsonant(s[1..])
  }

  /** Without consonant jamo there is nothing for the second replacement to remove. */
  lemma {:induction false} DropEuWithoutConsonants(s: string)
    requires forall j :: 0 <= j < |s| ==> !IsJamoConsonant(s[j])
    ensures DropEuAfterConsonant(s) == s
    decreases |s|
  {
    if s != [] {
      DropEuWithoutConsonants(s[1..]);
      assert [s[0]] + s[1..] == s;
    }
  }

  /** The length of the run of copies of `s[0]` that `s` starts with. */
  function SameRun(s: string): (n: nat)
    requires s != []
    ensures 1 <= n <= |s|
    ensures forall j :: 0 <= j < n ==> s[j] == s[0]
    ensures n < |s| ==> s[n] != s[0]
    decreases |s|
  {
    if |s| >= 2 && s[1] == s[0] then 1 + SameRun(s[1..]) else 1
  }

  /**
   * `.replace(/(.)\1{2,}/g, '$1$1')`: a character other than a line
   * terminator repeated three or more times in a row becomes two copies.
   * The result starts with the same two characters as the input.
   */
  function LimitRepeats(s: string): (r: string)
    ensures |r| <= |s|
    ensures |s| >= 1 ==> |r| >= 1 && r[0] == s[0]
    ensures |s| >= 2 ==> |r| >= 2 && r[1] == s[1]
    ensures forall c :: c in r ==> c in s
    decreases |s|
  {
    if |s| >= 3 && !IsLineTerminator(s[0]) && s[1] == s[0] && s[2] == s[0] then
      var n := SameRun(s);
      [s[0], s[0]] + LimitRepeats(s[n..])
    else if s == [] then []
    else [s[0]] + LimitRepeats(s[1..])
  }

  /** No character other than a line terminator appears three times in a row. */
  predicate NoTriples(s: string) {
    forall j :: 0 <= j < |s| - 2 && !IsLineTerminator(s[j]) ==> !(s[j + 1] == s[j] && s[j + 2] == s[j])
  }

  /** After LimitRepeats no character appears three times in a row. */
  lemma {:induction false} LimitRepeatsNoTriples(s: string)
    ensures NoTriples(LimitRepeats(s))
    decreases |s|
  {
    var r := LimitRepeats(s);
    if |s| >= 3 && !IsLineTerminator(s[0]) && s[1] == s[0] && s[2] == s[0] {
      var n := SameRun(s);
      var t := s[n..];
      LimitRepeatsNoTriples(t);
      var rt := LimitRepeats(t);
      assert r == [s[0], s[0]] + rt;
      forall j | 0 <= j < |r| - 2 && !IsLineTerminator(r[j])
        ensures !(r[j + 1] == r[j] && r[j + 2] == r[j])
      {
        if j == 0 || j == 1 {
          assert r[2] == rt[0] == t[0] != s[0];
        } else {
          assert r[j] == rt[j - 2] && r[j + 1] == rt[j - 1] && r[j + 2] == rt[j];
        }
      }
    } else if s != [] {
      var t := s[1..];
      LimitRepeatsNoTriples(t);
      var rt := LimitRepeats(t);
      assert r == [s[0]] + rt;
      forall j | 0 <= j < |r| - 2 && !IsLineTerminator(r[j])
        ensures !(r[j + 1] == r[j] && r[j + 2] == r[j])
      {
        if j == 0 {
          assert r[1] == t[0] == s[1] && r[2] == rt[1] == t[1] == s[2];
        } else {
          assert r[j] == rt[j - 1] && r[j + 1] == rt[j] && r[j + 2] == rt[j + 1];
        }
      }
    }
  }

  /** A string without triples is left as it is. */
  lemma {:induction false} LimitRepeatsKeepsNoTriples(s: string)
    requires NoTriples(s)
    ensures LimitRepeats(s) == s
    decreases |s|
  {
    if s != [] {
      var t := s[1..];
      assert NoTriples(t) by {
        forall j | 0 <= j < |t| - 2 && !IsLineTerminator(t[j]) ensures !(t[j + 1] == t[j] && t[j + 2] == t[j]) {
          assert t[j] == s[j + 1] && t[j + 1] == s[j + 2] && t[j + 2] == s[j + 3];
        }
      }
      LimitRepeatsKeepsNoTriples(t);
      assert [s[0]] + t == s;
    }
  }

  /** Limiting repeats a second time changes nothing. */
  lemma LimitRepeatsIdempotent(s: string)
    ensures LimitRepeats(LimitRepeats(s)) == LimitRepeats(s)
  {
    LimitRepeatsNoTriples(s);
    LimitRepeatsKeepsNoTriples(LimitRepeats(s));
  }

  /** postProcessKorean: the three replacements in order. */
  function PostProcessKorean(korean: string): (r: string)
    ensures |r| <= |korean|
    ensures forall c :: c in r ==> c in korean
    ensures NoTriples(r)
  {
    LimitRepeatsNoTriples(DropEuAfterConsonant(StripTrailingEu(korean)));
    LimitRepeats(DropEuAfterConsonant(StripTrailingEu(korean)))
  }

  /**
   * On a string of precomposed syllables that does not end in 으, the
   * first two replacements do nothing and only the repeat limit applies.
   */
  lemma PostProcessOfSyllables(s: string)
    requires AllSyllables(s)
    requires s == [] || s[|s| - 1] != '으'
    ensures PostProcessKorean(s) == LimitRepeats(s)
  {
    DropEuWithoutConsonants(s);
  }

  // ---------------------------------------------------------------------
  // phoneticConversion
  // ---------------------------------------------------------------------

  /** Each fragment converted by the tokenizer; an empty fragment contributes nothing. */
  function ConvertFragments(spelling: Spelling, fragments: seq<string>): (pieces: seq<string>)
    ensures |pieces| == |fragments|
    ensures forall j :: 0 <= j < |pieces| ==> pieces[j] == Syllables(spelling, fragments[j])
  {
    seq(|fragments|, j requires 0 <= j < |fragments| => Syllables(spelling, fragments[j]))
  }

  /** The name after lower-casing and the rewrite pass. */
  function Rewritten(patterns: seq<PhoneticPattern>, name: string): string {
    ApplyPatterns(Lower(name), patterns)
  }

  /** The converted fragments interleaved with the runs, before postProcessKorean. */
  function Assembled(patterns: seq<PhoneticPattern>, spelling: Spelling, name: string): string {
    var processed := Rewritten(patterns, name);
    Interleave(ConvertFragments(spelling, LatinFragments(processed)), HangulRuns(processed))
  }

  /**
   * What phoneticConversion returns for `name`, given the pattern table and
   * the spelling tables (the service passes PHONETIC_PATTERNS and its three
   * spelling records).
   */
  function PhoneticSpec(patterns: seq<PhoneticPattern>, spelling: Spelling, name: string): (r: string)
    ensures NoTriples(r)
  {
    PostProcessKorean(Assembled(patterns, spelling, name))
  }

  /** The pieces interleaved with the runs still to come, from fragment `i` and run `p` on. */
  ghost predicate InterleaveInvariant(result: string, pieces: seq<string>, runs: seq<string>, i: nat, p: nat)
    requires i <= |pieces| && p <= |runs|
  {
    result + Interleave(pieces[i..], runs[p..]) == Interleave(pieces, runs)
  }

  /** One iteration of the fragment loop: push the piece, then the run with the same index if any. */
  lemma InterleaveStep(result: string, pieces: seq<string>, runs: seq<string>, i: nat, p: nat)
    requires i < |pieces| && p <= |runs|
    requires InterleaveInvariant(result, pieces, runs, i, p)
    ensures p < |runs| ==> InterleaveInvariant(result + pieces[i] + runs[p], pieces, runs, i + 1, p + 1)
    ensures p == |runs| ==> InterleaveInvariant(result + pieces[i], pieces, runs, i + 1, p)
  {
    assert pieces[i..][1..] == pieces[i + 1..];
    if p < |runs| {
      assert runs[p..][1..] == runs[p + 1..];
      assert result + pieces[i] + runs[p] + Interleave(pieces[i + 1..], runs[p + 1..])
          == result + (pieces[i] + runs[p] + Interleave(pieces[i + 1..], runs[p + 1..]));
    } else {
      assert runs[p..] == [];
      assert result + pieces[i] + Interleave(pieces[i + 1..], []) == result + (pieces[i] + Interleave(pieces[i + 1..], []));
    }
  }

  /** phoneticConversion: the rewrite loop, the split, the fragment loop and the clean-up. */
  method PhoneticConversion(patterns: seq<PhoneticPattern>, spelling: Spelling, name: string) returns (r: string)
    ensures r == PhoneticSpec(patterns, spelling, name)
  {
    var processedName := RewriteWithPatterns(patterns, name);

    var koreanParts := HangulRuns(processedName);
    var nonKoreanParts := LatinFragments(processedName);
    ghost var pieces := ConvertFragments(spelling, nonKoreanParts);
    FragmentsOutnumberRuns(processedName);

    var result := "";
    var partIndex := 0;
    for i := 0 to |nonKoreanParts|
      invariant partIndex == if i < |koreanParts| then i else |koreanParts|
      invariant InterleaveInvariant(result, pieces, koreanParts, i, partIndex)
    {
      var piece := "";
      if nonKoreanParts[i] != "" {
        piece := ConvertToKoreanSyllables(spelling, nonKoreanParts[i]);
      }
      assert piece == pieces[i];
      InterleaveStep(result, pieces, koreanParts, i, partIndex);
      result := result + piece;
      if partIndex < |koreanParts| && koreanParts[partIndex] != "" {
        result := result + koreanParts[partIndex];
        partIndex := partIndex + 1;
      }
    }
    assert pieces[|pieces|..] == [] && koreanParts[|koreanParts|..] == [];
    assert result == Interleave(pieces, koreanParts);
    assert result == Assembled(patterns, spelling, name) by {
      assert processedName == Rewritten(patterns, name);
    }
    r := PostProcessKorean(result);
  }

  /** A character of an interleaving comes from one of the pieces or one of the runs. */
  lemma {:induction false} InterleaveChars(pieces: seq<string>, runs: seq<string>, c: char)
    requires c in Interleave(pieces, runs)
    ensures (exists j :: 0 <= j < |pieces| && c in pieces[j]) || (exists j :: 0 <= j < |runs| && c in runs[j])
    decreases |pieces|
  {
    if c in pieces[0] {
    } else if runs != [] && c in runs[0] {
    } else if runs == [] {
      InterleaveChars(pieces[1..], [], c);
      var j :| 0 <= j < |pieces[1..]| && c in pieces[1..][j];
      assert c in pieces[j + 1];
    } else {
      InterleaveChars(pieces[1..], runs[1..], c);
      if j :| 0 <= j < |pieces[1..]| && c in pieces[1..][j] {
        assert c in pieces[j + 1];
      } else {
        var j :| 0 <= j < |runs[1..]| && c in runs[1..][j];
        assert c in runs[j + 1];
      }
    }
  }

  /** A character absent from the rewritten name is absent from every run of it. */
  lemma {:induction false} RunsKeepOut(s: string, c: char)
    requires c !in s
    ensures forall j :: 0 <= j < |HangulRuns(s)| ==> c !in HangulRuns(s)[j]
    decreases |s|
  {
    if s != [] {
      if IsSyllable(s[0]) {
        var n := RunLength(s);
        assert c !in s[n..];
        assert c !in s[..n];
        RunsKeepOut(s[n..], c);
      } else {
        assert c !in s[1..];
        RunsKeepOut(s[1..], c);
      }
    }
  }

  /** The interleaving is made of precomposed syllables only: the converted pieces and the runs both are. */
  lemma AssembledIsHangul(patterns: seq<PhoneticPattern>, spelling: Spelling, name: string)
    ensures AllSyllables(Assembled(patterns, spelling, name))
  {
    var processed := Rewritten(patterns, name);
    var pieces := ConvertFragments(spelling, LatinFragments(processed));
    var runs := HangulRuns(processed);
    var a := Interleave(pieces, runs);
    forall k | 0 <= k < |a| ensures IsSyllable(a[k]) {
      InterleaveChars(pieces, runs, a[k]);
      if j :| 0 <= j < |pieces| && a[k] in pieces[j] {
        var m :| 0 <= m < |pieces[j]| && pieces[j][m] == a[k];
      } else {
        var j :| 0 <= j < |runs| && a[k] in runs[j];
        var m :| 0 <= m < |runs[j]| && runs[j][m] == a[k];
      }
    }
  }

  /** Whatever the name, phoneticConversion returns precomposed Hangul syllables only. */
  lemma PhoneticIsHangul(patterns: seq<PhoneticPattern>, spelling: Spelling, name: string)
    ensures AllSyllables(PhoneticSpec(patterns, spelling, name))
  {
    AssembledIsHangul(patterns, spelling, name);
    var a := Assembled(patterns, spelling, name);
    var r := PhoneticSpec(patterns, spelling, name);
    forall k | 0 <= k < |r| ensures IsSyllable(r[k]) {
      assert r[k] in a;
      var m :| 0 <= m < |a| && a[m] == r[k];
    }
  }

  /**
   * For a name without 으 the interleaving has no 으 either (no pattern
   * inserts one and the tokenizer never produces one), so of
   * postProcessKorean only the repeat limit can have an effect.
   */
  lemma PhoneticWithoutEu(patterns: seq<PhoneticPattern>, spelling: Spelling, name: string)
    requires WellFormed(spelling)
    requires forall j :: 0 <= j < |patterns| ==> '으' !in patterns[j].replacement
    requires '으' !in name
    ensures PhoneticSpec(patterns, spelling, name) == LimitRepeats(Assembled(patterns, spelling, name))
  {
    var lowered := Lower(name);
    assert '으' !in lowered by {
      forall k | 0 <= k < |lowered| ensures lowered[k] != '으' {
        assert name[k] in name;
      }
    }
    RewriteKeepsOut(lowered, patterns, '으');
    var processed := Rewritten(patterns, name);
    var pieces := ConvertFragments(spelling, LatinFragments(processed));
    var runs := HangulRuns(processed);
    RunsKeepOut(processed, '으');
    var a := Assembled(patterns, spelling, name);
    assert '으' !in a by {
      if '으' in a {
        InterleaveChars(pieces, runs, '으');
        if j :| 0 <= j < |pieces| && '으' in pieces[j] {
          SyllablesAvoidEu(spelling, LatinFragments(processed)[j]);
        }
      }
    }
    AssembledIsHangul(patterns, spelling, name);
    assert a == [] || a[|a| - 1] != '으';
    PostProcessOfSyllables(a);
  }
}
