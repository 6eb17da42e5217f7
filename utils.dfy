/**
  The text helpers of the utilities module: cleaning, keyword extraction and
  overlap, e-mail and phone checks, truncation, keyword highlighting and the
  resume content check.
*/
module Utils {
  import opened Wrappers
  import opened Text

  // ---------------------------------------------------------------------------
  // clean_text

  /** `re.sub(r'\s+', ' ', s)`: every whitespace run becomes one space. */
  function CollapseSpaces(s: string): (r: string)
    ensures forall k :: 0 <= k < |r| ==> IsSpace(r[k]) ==> r[k] == ' '
    decreases |s|
  {
    if s == [] then []
    else if IsSpace(s[0]) then " " + CollapseSpaces(s[SkipSpaces(s, 0)..])
    else [s[0]] + CollapseSpaces(s[1..])
  }

  /** The characters `[^\w\s\.\,\;\:\!\?\-\(\)]` does not remove. */
  predicate KeptByCleaner(c: char) {
    IsWordChar(c) || IsSpace(c) || c in ".,;:!?-()"
  }

  /**
    `clean_text`. The third substitution, `\n\s*\n` to a blank line, can
    never match: after the first one the text has no newline left (see
    `CleanedHasNoNewline`), so it is the identity and is not written out.
  */
  function CleanText(text: string): string {
    if text == "" then "" else Strip(Filter(CollapseSpaces(text), KeptByCleaner))
  }

  /** Collapsing and filtering leave no newline for `\n\s*\n` to match. */
  lemma CleanedHasNoNewline(text: string)
    ensures '\n' !in Filter(CollapseSpaces(text), KeptByCleaner)
  {
    var c := CollapseSpaces(text);
    forall k | 0 <= k < |c| ensures c[k] != '\n' {
    }
  }

  /**
    The cleaned text is empty for empty input, has no whitespace other than
    single-character spaces, has none at either end, and every character is
    a word character, a space or one of `.,;:!?-()`.
  */
  lemma CleanTextShape(text: string)
    ensures text == "" ==> CleanText(text) == ""
    ensures Stripped(CleanText(text))
    ensures forall k :: 0 <= k < |CleanText(text)| ==>
      var c := CleanText(text)[k];
      (IsWordChar(c) || c == ' ' || c in ".,;:!?-()") && c != '\n' && c != '\t'
  {
    if text != "" {
      var c := CollapseSpaces(text);
      var f := Filter(c, KeptByCleaner);
      var a, b := StripSlice(f);
      var r := f[a..b];
      forall k | 0 <= k < |r|
        ensures (IsWordChar(r[k]) || r[k] == ' ' || r[k] in ".,;:!?-()") && r[k] != '\n' && r[k] != '\t'
      {
        assert r[k] in f;
        FilteredChar(text, r[k]);
        CleanedChar(r[k]);
      }
      assert CleanText(text) == r;
    }
  }

  /** A character left after collapsing and filtering is kept by the cleaner, and a space if whitespace. */
  lemma FilteredChar(text: string, x: char)
    requires x in Filter(CollapseSpaces(text), KeptByCleaner)
    ensures KeptByCleaner(x) && (IsSpace(x) ==> x == ' ')
  {
    var c := CollapseSpaces(text);
    assert x in c;
    var j :| 0 <= j < |c| && c[j] == x;
  }

  /** A character the cleaner keeps that is whitespace only when it is a space. */
  lemma CleanedChar(x: char)
    requires KeptByCleaner(x) && (IsSpace(x) ==> x == ' ')
    ensures (IsWordChar(x) || x == ' ' || x in ".,;:!?-()") && x != '\n' && x != '\t'
  {
  }

  /** Dropping leading characters that `p` rejects does not change what `p` keeps. */
  lemma {:induction false} FilterSkip(s: string, j: nat, p: char -> bool)
    requires j <= |s| && forall k :: 0 <= k < j ==> !p(s[k])
    ensures Filter(s, p) == Filter(s[j..], p)
  {
    if j > 0 {
      FilterSkip(s[1..], j - 1, p);
      assert s[1..][j - 1..] == s[j..];
    }
  }

  /** Dropping trailing characters that `p` rejects does not change what `p` keeps. */
  lemma {:induction false} FilterCut(s: string, j: nat, p: char -> bool)
    requires j <= |s| && forall k :: j <= k < |s| ==> !p(s[k])
    ensures Filter(s, p) == Filter(s[..j], p)
  {
    if j > 0 {
      FilterCut(s[1..], j - 1, p);
      assert s[1..][..j - 1] == s[..j][1..];
    } else {
      FilterNone(s, p);
    }
  }

  /** Collapsing whitespace keeps the word characters, in order. */
  lemma {:induction false} CollapseKeepsWordChars(s: string)
    ensures Filter(CollapseSpaces(s), IsWordChar) == Filter(s, IsWordChar)
    decreases |s|
  {
    if s != [] {
      if IsSpace(s[0]) {
        var j := SkipSpaces(s, 0);
        CollapseKeepsWordChars(s[j..]);
        FilterCons(' ', CollapseSpaces(s[j..]), IsWordChar);
        FilterSkip(s, j, IsWordChar);
      } else {
        CollapseKeepsWordChars(s[1..]);
        FilterCons(s[0], CollapseSpaces(s[1..]), IsWordChar);
      }
    }
  }

  /** Stripping removes whitespace only, so it keeps the word characters. */
  lemma StripKeepsWordChars(s: string)
    ensures Filter(Strip(s), IsWordChar) == Filter(s, IsWordChar)
  {
    var a, b := StripSlice(s);
    FilterCut(s, b, IsWordChar);
    FilterSkip(s[..b], a, IsWordChar);
    assert s[..b][a..] == s[a..b];
  }

  /** Cleaning never removes, adds or reorders a word character. */
  lemma CleanTextKeepsWordChars(text: string)
    ensures Filter(CleanText(text), IsWordChar) == Filter(text, IsWordChar)
  {
    if text != "" {
      var c := CollapseSpaces(text);
      StripKeepsWordChars(Filter(c, KeptByCleaner));
      FilterWeaker(c, KeptByCleaner, IsWordChar);
      CollapseKeepsWordChars(text);
    }
  }

  // ---------------------------------------------------------------------------
  // extract_keywords

  /** The end of the run of word characters starting at `i`. */
  function WordRunEnd(s: string, i: nat): (r: nat)
    requires i <= |s|
    ensures i <= r <= |s|
    ensures r == |s| || !IsWordChar(s[r])
    ensures forall k :: i <= k < r ==> IsWordChar(s[k])
    decreases |s| - i
  {
    if i < |s| && IsWordChar(s[i]) then WordRunEnd(s, i + 1) else i
  }

  /** The first word character at or after `i`, or `|s|`. */
  function NextWordChar(s: string, i: nat): (r: nat)
    requires i <= |s|
    ensures i <= r <= |s|
    ensures r == |s| || IsWordChar(s[r])
    ensures forall k :: i <= k < r ==> !IsWordChar(s[k])
    decreases |s| - i
  {
    if i < |s| && !IsWordChar(s[i]) then NextWordChar(s, i + 1) else i
  }

  /** `s[a..b]` is a maximal run of word characters: what `\b\w+\b` matches. */
  predicate IsWordRun(s: string, a: nat, b: nat) {
    && a < b <= |s|
    && (forall k :: a <= k < b ==> IsWordChar(s[k]))
    && (a == 0 || !IsWordChar(s[a - 1]))
    && (b == |s| || !IsWordChar(s[b]))
  }

  /** `re.findall(r'\b\w+\b', s[i:])` from a position that does not split a run. */
  function WordRunsFrom(s: string, i: nat): (ws: seq<string>)
    requires i <= |s|
    decreases |s| - i
  {
    var a := NextWordChar(s, i);
    if a == |s| then [] else [s[a..WordRunEnd(s, a)]] + WordRunsFrom(s, WordRunEnd(s, a))
  }

  /** Every listed run is a maximal run of `s` at or after `i`. */
  lemma {:induction false} WordRunsSound(s: string, i: nat, w: string) returns (a: nat, b: nat)
    requires i <= |s| && (i == 0 || i == |s| || !IsWordChar(s[i - 1]) || !IsWordChar(s[i]))
    requires w in WordRunsFrom(s, i)
    ensures i <= a && IsWordRun(s, a, b) && w == s[a..b]
    decreases |s| - i
  {
    var x := NextWordChar(s, i);
    var e := WordRunEnd(s, x);
    if w == s[x..e] {
      a, b := x, e;
    } else {
      a, b := WordRunsSound(s, e, w);
    }
  }

  /** Every maximal run of `s` at or after `i` is listed. */
  lemma {:induction false} WordRunsComplete(s: string, i: nat, a: nat, b: nat)
    requires i <= a && IsWordRun(s, a, b)
    ensures s[a..b] in WordRunsFrom(s, i)
    decreases |s| - i
  {
    var x := NextWordChar(s, i);
    var e := WordRunEnd(s, x);
    if x < a {
      assert e <= a;
      WordRunsComplete(s, e, a, b);
    } else {
      assert IsWordChar(s[a]);
      assert x == a;
      assert e == b;
    }
  }

  /** The stop words `extract_keywords` drops. */
  const StopWords: set<string> := {
    "the", "a", "an", "and", "or", "but", "in", "on", "at", "to", "for", "of", "with", "by",
    "is", "are", "was", "were", "be", "been", "being", "have", "has", "had", "do", "does", "did",
    "will", "would", "could", "should", "may", "might", "must", "can", "this", "that", "these", "those"
  }

  /** `extract_keywords(text, min_length)`, as the set `list(set(...))` is built from. */
  function ExtractKeywords(text: string, minLength: int): set<string> {
    if text == "" then {}
    else set w | w in WordRunsFrom(Lower(text), 0) && |w| >= minLength && w !in StopWords
  }

  /**
    A keyword is exactly a maximal run of word characters of the lowercased
    text that is at least `minLength` long and is not a stop word; it is
    therefore lowercase.
  */
  lemma KeywordMembership(text: string, minLength: int, w: string)
    ensures w in ExtractKeywords(text, minLength) <==>
      (exists a: nat, b: nat :: IsWordRun(Lower(text), a, b) && Lower(text)[a..b] == w) && |w| >= minLength && w !in StopWords
    ensures w in ExtractKeywords(text, minLength) ==> w != "" && IsLowercase(w)
  {
    var s := Lower(text);
    if w in ExtractKeywords(text, minLength) {
      var a, b := WordRunsSound(s, 0, w);
      assert forall k :: 0 <= k < |w| ==> w[k] == LowerChar(text[a + k]);
    }
    if (exists a: nat, b: nat :: IsWordRun(s, a, b) && s[a..b] == w) && |w| >= minLength && w !in StopWords {
      var a: nat, b: nat :| IsWordRun(s, a, b) && s[a..b] == w;
      WordRunsComplete(s, 0, a, b);
    }
  }

  // ---------------------------------------------------------------------------
  // calculate_similarity

  /** A fraction `num / den`; `den` is positive, and `0.0` is `Ratio(0, 1)`. */
  datatype Ratio = Ratio(num: nat, den: nat)

  lemma SubsetCard<T>(a: set<T>, b: set<T>)
    requires a <= b
    ensures |a| <= |b|
    ensures |a| == |b| ==> a == b
  {
    assert b == a + (b - a);
    assert a * (b - a) == {};
    if a != b {
      assert b - a != {};
    }
  }

  /**
    `calculate_similarity`: the Jaccard index of the two keyword sets (with
    the default minimum length 3), or `0.0` when either text or either set is
    empty.
  */
  function Similarity(text1: string, text2: string): (r: Ratio)
    ensures r.den > 0 && r.num <= r.den
  {
    if text1 == "" || text2 == "" then Ratio(0, 1)
    else
      var k1, k2 := ExtractKeywords(text1, 3), ExtractKeywords(text2, 3);
      if k1 == {} || k2 == {} then Ratio(0, 1)
      else
        SubsetCard(k1 * k2, k1 + k2);
        assert k1 <= k1 + k2;
        Ratio(|k1 * k2|, |k1 + k2|)
  }

  /** The similarity does not depend on the order of the texts. */
  lemma SimilaritySymmetric(text1: string, text2: string)
    ensures Similarity(text1, text2) == Similarity(text2, text1)
  {
    var k1, k2 := ExtractKeywords(text1, 3), ExtractKeywords(text2, 3);
    assert k1 * k2 == k2 * k1 && k1 + k2 == k2 + k1;
  }

  /**
    The similarity is `1.0` exactly when both texts have the same non-empty
    keyword set, and `0.0` exactly when they share no keyword.
  */
  lemma SimilarityExtremes(text1: string, text2: string)
    ensures var r, k1, k2 := Similarity(text1, text2), ExtractKeywords(text1, 3), ExtractKeywords(text2, 3);
      && (r.num == r.den <==> k1 != {} && k1 == k2)
      && (r.num == 0 <==> k1 * k2 == {})
  {
    var k1, k2 := ExtractKeywords(text1, 3), ExtractKeywords(text2, 3);
    if text1 != "" && text2 != "" && k1 != {} && k2 != {} {
      SubsetCard(k1 * k2, k1 + k2);
      if k1 * k2 == k1 + k2 {
        assert k1 <= k1 * k2;
        assert k2 <= k1 * k2;
      }
    } else if text1 == "" {
      assert k1 == {};
    } else if text2 == "" {
      assert k2 == {};
    }
  }

  // ---------------------------------------------------------------------------
  // validate_email

  /** `[a-zA-Z0-9._%+-]` */
  predicate LocalChar(c: char) { IsLetter(c) || IsDigit(c) || c in "._%+-" }

  /** `[a-zA-Z0-9.-]` */
  predicate DomainChar(c: char) { IsLetter(c) || IsDigit(c) || c in ".-" }

  /** The text `$` is tested against: one final newline may follow the match. */
  function EmailBody(email: string): string {
    if email != "" && email[|email| - 1] == '\n' then email[..|email| - 1] else email
  }

  /**
    `^[a-zA-Z0-9._%+-]+@[a-zA-Z0-9.-]+\.[a-zA-Z]{2,}$` matches `b` with the
    `@` at `at` and the escaped dot at `dot`.
  */
  predicate EmailMatch(b: string, at: nat, dot: nat) {
    && 0 < at && at + 1 < dot && dot + 2 < |b|
    && b[at] == '@' && b[dot] == '.'
    && (forall k :: 0 <= k < at ==> LocalChar(b[k]))
    && (forall k :: at < k < dot ==> DomainChar(b[k]))
    && (forall k :: dot < k < |b| ==> IsLetter(b[k]))
  }

  predicate AllChars(s: string, lo: nat, hi: nat, p: char -> bool)
    requires lo <= hi <= |s|
  {
    forall k :: lo <= k < hi ==> p(s[k])
  }

  /** The first `k` in `[lo, hi)` with `s[k] == c`. */
  function IndexOfChar(s: string, c: char, lo: nat, hi: nat): (r: Option<nat>)
    requires lo <= hi <= |s|
    ensures r.Some? ==> lo <= r.value < hi && s[r.value] == c
    ensures r.Some? ==> forall k :: lo <= k < r.value ==> s[k] != c
    ensures r.None? ==> forall k :: lo <= k < hi ==> s[k] != c
    decreases hi - lo
  {
    if lo == hi then None
    else if s[lo] == c then Some(lo)
    else IndexOfChar(s, c, lo + 1, hi)
  }

  /**
    `validate_email`: the local part runs to the first `@`, and the domain's
    last dot is followed by at least two letters and nothing else.
  */
  function ValidateEmail(email: string): bool {
    var b := EmailBody(email);
    match IndexOfChar(b, '@', 0, |b|)
    case None => false
    case Some(at) =>
      match LastIndexOfChar(b, '.', at + 1, |b|)
      case None => false
      case Some(dot) =>
        && 0 < at && at + 1 < dot && dot + 2 < |b|
        && AllChars(b, 0, at, LocalChar) && AllChars(b, at + 1, dot, DomainChar)
        && AllChars(b, dot + 1, |b|, IsLetter)
  }

  /** The scan above accepts exactly the addresses the anchored pattern matches. */
  lemma ValidateEmailMatches(email: string)
    ensures ValidateEmail(email) <==> exists at: nat, dot: nat :: EmailMatch(EmailBody(email), at, dot)
  {
    var b := EmailBody(email);
    if at: nat, dot: nat :| EmailMatch(b, at, dot) {
      assert IndexOfChar(b, '@', 0, |b|) == Some(at) by {
        var r := IndexOfChar(b, '@', 0, |b|);
        assert r.Some?;
      }
      assert LastIndexOfChar(b, '.', at + 1, |b|) == Some(dot) by {
        var r := LastIndexOfChar(b, '.', at + 1, |b|);
        assert r.Some?;
      }
    } else if ValidateEmail(email) {
      var at := IndexOfChar(b, '@', 0, |b|).value;
      var dot := LastIndexOfChar(b, '.', at + 1, |b|).value;
      assert EmailMatch(b, at, dot);
    }
  }

  // ---------------------------------------------------------------------------
  // validate_phone

  /** `validate_phone`: between 7 and 15 digits once `\D` is removed. */
  function ValidatePhone(phone: string): bool {
    7 <= |Filter(phone, IsDigit)| <= 15
  }

  /** Only the digits matter: a separator anywhere does not change the verdict. */
  lemma PhoneIgnoresSeparator(a: string, c: char, b: string)
    requires !IsDigit(c)
    ensures ValidatePhone(a + [c] + b) == ValidatePhone(a + b)
  {
    FilterConcat(a + [c], b, IsDigit);
    FilterConcat(a, [c], IsDigit);
    FilterConcat(a, b, IsDigit);
    FilterNone([c], IsDigit);
  }

  /** A string of digits is a valid phone number exactly when it has 7 to 15 of them. */
  lemma {:induction false} PhoneOfDigits(d: string)
    requires forall k :: 0 <= k < |d| ==> IsDigit(d[k])
    ensures Filter(d, IsDigit) == d
    ensures ValidatePhone(d) <==> 7 <= |d| <= 15
  {
    if d != [] {
      PhoneOfDigits(d[1..]);
    }
  }

  // ---------------------------------------------------------------------------
  // truncate_text

  /** Python's `s[:n]` for any integer `n`: a negative `n` counts from the end. */
  function PrefixUpTo(s: string, n: int): (r: string)
    ensures StartsWith(s, r)
    ensures n >= 0 ==> |r| == if n < |s| then n else |s|
    ensures n < 0 ==> |r| == if |s| + n > 0 then |s| + n else 0
  {
    if n >= 0 then (if n < |s| then s[..n] else s)
    else if |s| + n > 0 then s[..|s| + n] else ""
  }

  /**
    `truncate_text`: an empty or short enough text is returned as it is;
    otherwise a prefix of it followed by the suffix, `max_length` characters
    in all when the suffix fits.
  */
  function TruncateText(text: string, maxLength: int, suffix: string): (r: string)
    ensures |text| <= maxLength ==> r == text
    ensures text != "" && |text| > maxLength ==> EndsWith(r, suffix) && StartsWith(text, r[..|r| - |suffix|])
    ensures |text| > maxLength >= |suffix| ==> |r| == maxLength
  {
    if text == "" || |text| <= maxLength then text
    else
      var head := PrefixUpTo(text, maxLength - |suffix|);
      assert (head + suffix)[..|head|] == head;
      head + suffix
  }

  // ---------------------------------------------------------------------------
  // highlight_keywords

  /** `w` occurs at `i` ignoring ASCII case (`re.escape(w)` under `re.IGNORECASE`). */
  predicate MatchesCIAt(s: string, w: string, i: nat) {
    i + |w| <= |s| && Lower(s[i..i + |w|]) == Lower(w)
  }

  /**
    `re.sub(re.escape(w), rep, s, flags=re.IGNORECASE)` for a literal
    replacement: occurrences are replaced left to right without overlap;
    the empty pattern matches at every position, so `rep` is inserted
    before every character and at the end.
  */
  function ReplaceCI(s: string, w: string, rep: string): string
    decreases |s|
  {
    if w == "" then
      if s == [] then rep else rep + [s[0]] + ReplaceCI(s[1..], w, rep)
    else if |s| < |w| then s
    else if MatchesCIAt(s, w, 0) then rep + ReplaceCI(s[|w|..], w, rep)
    else [s[0]] + ReplaceCI(s[1..], w, rep)
  }

  lemma MatchesShift(s: string, w: string, i: nat)
    requires s != []
    ensures MatchesCIAt(s[1..], w, i) <==> MatchesCIAt(s, w, i + 1)
  {
    if i + |w| <= |s| - 1 {
      assert s[1..][i..i + |w|] == s[i + 1..i + 1 + |w|];
    }
  }

  /** Where a non-empty word does not occur, nothing is replaced. */
  lemma {:induction false} ReplaceAbsent(s: string, w: string, rep: string)
    requires w != "" && forall i :: 0 <= i <= |s| ==> !MatchesCIAt(s, w, i)
    ensures ReplaceCI(s, w, rep) == s
    decreases |s|
  {
    if |s| >= |w| {
      forall i | 0 <= i <= |s[1..]| ensures !MatchesCIAt(s[1..], w, i) {
        MatchesShift(s, w, i);
      }
      ReplaceAbsent(s[1..], w, rep);
    }
  }

  /** Where a non-empty word occurs, the replacement appears in the result. */
  lemma {:induction false} ReplacePresent(s: string, w: string, rep: string, i: nat)
    requires w != "" && MatchesCIAt(s, w, i)
    ensures Contains(ReplaceCI(s, w, rep), rep)
    decreases |s|
  {
    if MatchesCIAt(s, w, 0) {
      assert OccursAt(ReplaceCI(s, w, rep), rep, 0);
    } else {
      assert i > 0;
      assert s[1..][i - 1..i - 1 + |w|] == s[i..i + |w|];
      ReplacePresent(s[1..], w, rep, i - 1);
      var j :| 0 <= j <= |ReplaceCI(s[1..], w, rep)| - |rep| && OccursAt(ReplaceCI(s[1..], w, rep), rep, j);
      assert OccursAt(ReplaceCI(s, w, rep), rep, j + 1);
    }
  }

  /** `f"**{keyword}**"` */
  function Marked(keyword: string): string {
    "**" + keyword + "**"
  }

  /** The keywords applied one after another, in list order. */
  function Highlighted(text: string, keywords: seq<string>): string
    decreases |keywords|
  {
    if keywords == [] then text
    else
      var n := |keywords| - 1;
      ReplaceCI(Highlighted(text, keywords[..n]), keywords[n], Marked(keywords[n]))
  }

  /**
    `highlight_keywords`. A keyword with a backslash makes `re.sub` read
    the replacement as a template, which the program does not intend, so
    such keywords are excluded.
  */
  method HighlightKeywords(text: string, keywords: seq<string>) returns (r: string)
    requires forall j :: 0 <= j < |keywords| ==> '\\' !in keywords[j]
    ensures text == "" || keywords == [] ==> r == text
    ensures text != "" && keywords != [] ==> r == Highlighted(text, keywords)
  {
    if text == "" || keywords == [] {
      return text;
    }
    r := text;
    for j := 0 to |keywords|
      invariant r == Highlighted(text, keywords[..j])
    {
      PrefixStep(keywords, j);
      r := ReplaceCI(r, keywords[j], Marked(keywords[j]));
    }
    PrefixWhole(keywords);
  }

  /** When no keyword occurs in the text, ignoring case, highlighting changes nothing. */
  lemma {:induction false} HighlightedAbsent(text: string, keywords: seq<string>)
    requires forall j :: 0 <= j < |keywords| ==> !ContainsCI(text, keywords[j])
    ensures Highlighted(text, keywords) == text
    decreases |keywords|
  {
    if keywords != [] {
      var n := |keywords| - 1;
      HighlightedAbsent(text, keywords[..n]);
      var w := keywords[n];
      assert !ContainsCI(text, w);
      assert w != "" by {
        if w == "" { assert OccursAt(Lower(text), Lower(w), 0); }
      }
      forall i | 0 <= i <= |text| ensures !MatchesCIAt(text, w, i) {
        if i + |w| <= |text| {
          LowerSlice(text, i, i + |w|);
          assert !OccursAt(Lower(text), Lower(w), i);
        }
      }
      ReplaceAbsent(text, w, Marked(w));
    }
  }

  // ---------------------------------------------------------------------------
  // validate_resume_content

  /** The issues `validate_resume_content` can report; `Message` gives the text the program appends. */
  datatype Issue = TooShort | FewWords | NoContact | NoExperience | NoEducation | NoSkills

  function Message(issue: Issue): string {
    match issue
    case TooShort => "Resume content is too short"
    case FewWords => "Resume is very short (less than 100 words)"
    case NoContact => "No contact information found"
    case NoExperience => "No work experience section found"
    case NoEducation => "No education section found"
    case NoSkills => "No skills section found"
  }

  /** The `analysis` dictionary, with each issue kept as the `Issue` its message names. */
  datatype ContentAnalysis = ContentAnalysis(
    isValid: bool, wordCount: nat,
    hasContact: bool, hasExperience: bool, hasEducation: bool, hasSkills: bool,
    issues: seq<Issue>)

  const ContactWords: seq<string> := ["email", "phone", "address", "@", "linkedin", "github"]
  const ExperienceWords: seq<string> := ["experience", "work", "employment", "job", "position", "role"]
  const EducationWords: seq<string> := ["education", "degree", "university", "college", "bachelor", "master", "phd"]
  const SkillWords: seq<string> := ["skills", "technical", "programming", "software", "tools"]

  /** One check: its issue is appended when it fails. */
  function Checked(issues: seq<Issue>, passed: bool, issue: Issue): seq<Issue> {
    if passed then issues else issues + [issue]
  }

  /** The issues of a long enough text, in the order the checks append them. */
  function IssueList(wordCount: nat, hasContact: bool, hasExperience: bool, hasEducation: bool, hasSkills: bool): seq<Issue> {
    var few := Checked([], wordCount >= 100, FewWords);
    Checked(Checked(Checked(Checked(few, hasContact, NoContact), hasExperience, NoExperience),
                    hasEducation, NoEducation), hasSkills, NoSkills)
  }

  /** Each issue is reported exactly when its check fails; there are at most five and never the too-short one. */
  lemma IssueListShape(wordCount: nat, hasContact: bool, hasExperience: bool, hasEducation: bool, hasSkills: bool)
    ensures var issues := IssueList(wordCount, hasContact, hasExperience, hasEducation, hasSkills);
      && (FewWords in issues <==> wordCount < 100)
      && (NoContact in issues <==> !hasContact)
      && (NoExperience in issues <==> !hasExperience)
      && (NoEducation in issues <==> !hasEducation)
      && (NoSkills in issues <==> !hasSkills)
      && TooShort !in issues && |issues| <= 5
  {
  }

  /**
    `validate_resume_content`. A text shorter than 50 characters once
    stripped gets the single too-short issue and nothing else. Otherwise the
    words are counted, each section flag is set exactly when one of its
    words occurs in the lowercased text, the issues are those of the failed
    checks in check order, and the text is valid exactly when at most two
    issues were reported.
  */
  method ValidateResumeContent(text: string) returns (analysis: ContentAnalysis)
    ensures |Strip(text)| < 50 ==>
      analysis == ContentAnalysis(false, 0, false, false, false, false, [TooShort])
    ensures |Strip(text)| >= 50 ==>
      var lower := Lower(text);
      && analysis.wordCount == |Words(text)|
      && (analysis.hasContact <==> ContainsAny(lower, ContactWords))
      && (analysis.hasExperience <==> ContainsAny(lower, ExperienceWords))
      && (analysis.hasEducation <==> ContainsAny(lower, EducationWords))
      && (analysis.hasSkills <==> ContainsAny(lower, SkillWords))
      && analysis.issues == IssueList(analysis.wordCount, analysis.hasContact, analysis.hasExperience,
                                      analysis.hasEducation, analysis.hasSkills)
      && (analysis.isValid <==> |analysis.issues| <= 2)
  {
    if text == "" || |Strip(text)| < 50 {
      return ContentAnalysis(false, 0, false, false, false, false, [TooShort]);
    }
    var wordCount := |Words(text)|;
    var lower := Lower(text);
    var hasContact := ContainsAny(lower, ContactWords);
    var hasExperience := ContainsAny(lower, ExperienceWords);
    var hasEducation := ContainsAny(lower, EducationWords);
    var hasSkills := ContainsAny(lower, SkillWords);
    var issues := ReportIssues(wordCount, hasContact, hasExperience, hasEducation, hasSkills);
    analysis := ContentAnalysis(|issues| <= 2, wordCount, hasContact, hasExperience, hasEducation, hasSkills, issues);
  }

  /** The appends of `validate_resume_content` for a long enough text, one check at a time. */
  method ReportIssues(wordCount: nat, hasContact: bool, hasExperience: bool, hasEducation: bool, hasSkills: bool)
    returns (issues: seq<Issue>)
    ensures issues == IssueList(wordCount, hasContact, hasExperience, hasEducation, hasSkills)
  {
    issues := [];
    if wordCount < 100 {
      issues := issues + [FewWords];
    }
    ghost var few := issues;
    if !hasContact {
      issues := issues + [NoContact];
    }
    assert issues == Checked(few, hasContact, NoContact);
    ghost var upToContact := issues;
    if !hasExperience {
      issues := issues + [NoExperience];
    }
    assert issues == Checked(upToContact, hasExperience, NoExperience);
    ghost var upToExperience := issues;
    if !hasEducation {
      issues := issues + [NoEducation];
    }
    assert issues == Checked(upToExperience, hasEducation, NoEducation);
    ghost var upToEducation := issues;
    if !hasSkills {
      issues := issues + [NoSkills];
    }
    assert issues == Checked(upToEducation, hasSkills, NoSkills);
  }
}
