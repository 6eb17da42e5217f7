/**
  `_extract_experience`, `_extract_education` and `_extract_projects` in
  `src/resume_parser.py`: a section text is cut into entries by `re.split`,
  entries whose stripped text is too short are dropped, and each remaining
  entry is turned into a record by a few fixed `re.search` patterns, every
  field defaulting to the empty string.
*/
module EntryExtractor {
  import opened Wrappers
  import opened Text
  import opened Models

  // ---------------------------------------------------------------------------
  // The split patterns

  /** The three patterns the extractors split on. */
  datatype Splitter =
    | ExperienceSplit  // \n\s*\n|\n(?=[A-Z][a-z]+.*\d{4})
    | EducationSplit   // \n\s*\n
    | ProjectsSplit    // \n\s*\n|\n(?=[A-Z][a-z]+.*:)

  /** `[A-Z][a-z]` at `q` (the split patterns are case-sensitive). */
  predicate CapitalisedAt(s: string, q: nat) {
    q + 2 <= |s| && IsUpper(s[q]) && IsLower(s[q + 1])
  }

  /** `.*\d{4}` from `i`: four digits start somewhere on the rest of the line. */
  function YearOnLine(s: string, i: nat): (r: bool)
    requires i <= |s|
    ensures r <==> exists x :: i <= x && FourDigitsAt(s, x) && forall k :: i <= k < x ==> s[k] != '\n'
    decreases |s| - i
  {
    if i == |s| then false
    else if FourDigitsAt(s, i) then true
    else if s[i] == '\n' then false
    else YearOnLine(s, i + 1)
  }

  /** `.*:` from `i`: a colon occurs on the rest of the line. */
  function ColonOnLine(s: string, i: nat): (r: bool)
    requires i <= |s|
    ensures r <==> exists x :: i <= x < |s| && s[x] == ':' && forall k :: i <= k < x ==> s[k] != '\n'
    decreases |s| - i
  {
    if i == |s| then false
    else if s[i] == ':' then true
    else if s[i] == '\n' then false
    else ColonOnLine(s, i + 1)
  }

  /**
    Where a separator match that starts at `p` ends. The blank-line
    alternative is tried first; the second alternative is a lone newline
    followed (by lookahead) by a capitalised word and, later on that line,
    four digits or a colon.
  */
  function SeparatorEnd(sp: Splitter, s: string, p: nat): (r: Option<nat>)
    requires p <= |s|
    ensures r.Some? ==> p < |s| && s[p] == '\n' && p < r.value <= |s|
  {
    match BlankLineEnd(s, p)
    case Some(e) => Some(e)
    case None =>
      if sp.EducationSplit? || p == |s| || s[p] != '\n' || !CapitalisedAt(s, p + 1) then None
      else if sp.ExperienceSplit? && YearOnLine(s, p + 3) then Some(p + 1)
      else if sp.ProjectsSplit? && ColonOnLine(s, p + 3) then Some(p + 1)
      else None
  }

  /** No separator match starts in `[lo, hi)`. */
  predicate NoSeparatorIn(sp: Splitter, s: string, lo: nat, hi: nat)
    requires hi <= |s|
  {
    forall k :: lo <= k < hi ==> SeparatorEnd(sp, s, k).None?
  }

  /**
    `re.split` continued at offset `p` inside a piece that began at `start`:
    the `[begin, end)` of every piece. Searching resumes where a separator
    match ends, so pieces and separator matches alternate and tile the text.
  */
  function SplitSpans(sp: Splitter, s: string, start: nat, p: nat): (spans: seq<(nat, nat)>)
    requires start <= p <= |s|
    requires NoSeparatorIn(sp, s, start, p)
    ensures |spans| > 0 && spans[0].0 == start && spans[|spans| - 1].1 == |s|
    ensures forall i :: 0 <= i < |spans| ==> start <= spans[i].0 <= spans[i].1 <= |s|
    ensures forall i :: 0 <= i < |spans| ==> NoSeparatorIn(sp, s, spans[i].0, spans[i].1)
    ensures forall i :: 0 <= i < |spans| - 1 ==> SeparatorEnd(sp, s, spans[i].1) == Some(spans[i + 1].0)
    decreases |s| - p
  {
    if p == |s| then [(start, |s|)]
    else
      match SeparatorEnd(sp, s, p)
      case Some(e) =>
        var rest := SplitSpans(sp, s, e, e);
        ConsSpans(sp, s, start, p, rest);
        [(start, p)] + rest
      case None => SplitSpans(sp, s, start, p + 1)
  }

  /** A piece ended by a separator, followed by the spans after that separator. */
  lemma ConsSpans(sp: Splitter, s: string, start: nat, p: nat, rest: seq<(nat, nat)>)
    requires start <= p < |s| && NoSeparatorIn(sp, s, start, p)
    requires SeparatorEnd(sp, s, p).Some? && rest != [] && rest[0].0 == SeparatorEnd(sp, s, p).value
    requires rest[|rest| - 1].1 == |s|
    requires forall i :: 0 <= i < |rest| ==> p <= rest[i].0 <= rest[i].1 <= |s|
    requires forall i :: 0 <= i < |rest| ==> NoSeparatorIn(sp, s, rest[i].0, rest[i].1)
    requires forall i :: 0 <= i < |rest| - 1 ==> SeparatorEnd(sp, s, rest[i].1) == Some(rest[i + 1].0)
    ensures var spans := [(start, p)] + rest;
      && spans[0].0 == start && spans[|spans| - 1].1 == |s|
      && (forall i :: 0 <= i < |spans| ==> start <= spans[i].0 <= spans[i].1 <= |s|)
      && (forall i :: 0 <= i < |spans| ==> NoSeparatorIn(sp, s, spans[i].0, spans[i].1))
      && (forall i :: 0 <= i < |spans| - 1 ==> SeparatorEnd(sp, s, spans[i].1) == Some(spans[i + 1].0))
  {
    var spans := [(start, p)] + rest;
    forall i | 0 < i < |spans| ensures spans[i] == rest[i - 1] {}
  }

  /** The pieces `re.split(pattern, s)` returns. */
  function Pieces(sp: Splitter, s: string): (pieces: seq<string>)
    ensures |pieces| > 0
  {
    var spans := SplitSpans(sp, s, 0, 0);
    seq(|spans|, i requires 0 <= i < |spans| => s[spans[i].0..spans[i].1])
  }

  // ---------------------------------------------------------------------------
  // Dropping short pieces

  const MinExperienceLength: nat := 20
  const MinEducationLength: nat := 10
  const MinProjectLength: nat := 15

  /** The pieces `keep` accepts, in split order: the `continue` filter of the extraction loops. */
  function Kept(pieces: seq<string>, keep: string -> bool): (kept: seq<string>)
    ensures |kept| <= |pieces|
  {
    if pieces == [] then []
    else
      var init := Kept(pieces[..|pieces| - 1], keep);
      var last := pieces[|pieces| - 1];
      if keep(last) then init + [last] else init
  }

  /** One more piece of the loop: kept when `keep` accepts it. */
  lemma KeptStep(pieces: seq<string>, keep: string -> bool, i: nat)
    requires i < |pieces|
    ensures Kept(pieces[..i + 1], keep) == Kept(pieces[..i], keep) + (if keep(pieces[i]) then [pieces[i]] else [])
  {
    PrefixStep(pieces, i);
  }

  /** Every kept piece is a piece that `keep` accepts. */
  lemma {:induction false} KeptSound(pieces: seq<string>, keep: string -> bool, i: nat) returns (j: nat)
    requires i < |Kept(pieces, keep)|
    ensures j < |pieces| && Kept(pieces, keep)[i] == pieces[j] && keep(pieces[j])
  {
    var n := |pieces| - 1;
    if i < |Kept(pieces[..n], keep)| {
      j := KeptSound(pieces[..n], keep, i);
      assert pieces[..n][j] == pieces[j];
    } else {
      j := n;
    }
  }

  /** Every piece that `keep` accepts is kept. */
  lemma {:induction false} KeptComplete(pieces: seq<string>, keep: string -> bool, i: nat)
    requires i < |pieces| && keep(pieces[i])
    ensures pieces[i] in Kept(pieces, keep)
  {
    var n := |pieces| - 1;
    if i < n {
      KeptComplete(pieces[..n], keep, i);
      assert pieces[..n][i] == pieces[i];
    }
  }

  /** Filtering works piece by piece, so the kept pieces keep their order. */
  lemma {:induction false} KeptConcat(a: seq<string>, b: seq<string>, keep: string -> bool)
    ensures Kept(a + b, keep) == Kept(a, keep) + Kept(b, keep)
    decreases |b|
  {
    if b != [] {
      var b' := b[..|b| - 1];
      assert (a + b)[..|a + b| - 1] == a + b';
      KeptConcat(a, b', keep);
    } else {
      assert a + b == a;
    }
  }

  /** The kept pieces keep their relative order: later survivors come from later pieces. */
  lemma {:induction false} KeptOrder(pieces: seq<string>, keep: string -> bool, i1: nat, i2: nat) returns (j1: nat, j2: nat)
    requires i1 < i2 < |Kept(pieces, keep)|
    ensures j1 < j2 < |pieces|
    ensures Kept(pieces, keep)[i1] == pieces[j1] && Kept(pieces, keep)[i2] == pieces[j2]
  {
    var n := |pieces| - 1;
    var init := Kept(pieces[..n], keep);
    if i2 < |init| {
      j1, j2 := KeptOrder(pieces[..n], keep, i1, i2);
      assert pieces[..n][j1] == pieces[j1] && pieces[..n][j2] == pieces[j2];
    } else {
      j1 := KeptSound(pieces[..n], keep, i1);
      assert pieces[..n][j1] == pieces[j1];
      j2 := n;
    }
  }

  /** When `keep` accepts no piece, nothing is kept. */
  lemma {:induction false} KeptNone(pieces: seq<string>, keep: string -> bool)
    requires forall i :: 0 <= i < |pieces| ==> !keep(pieces[i])
    ensures Kept(pieces, keep) == []
  {
    if pieces != [] {
      var n := |pieces| - 1;
      forall i | 0 <= i < n ensures !keep(pieces[..n][i]) {
        assert pieces[..n][i] == pieces[i];
      }
      KeptNone(pieces[..n], keep);
    }
  }

  /** Membership in the kept pieces: a piece that `keep` accepts. */
  lemma KeptMembers(pieces: seq<string>, keep: string -> bool)
    ensures forall w :: w in Kept(pieces, keep) <==> w in pieces && keep(w)
  {
    forall w ensures w in Kept(pieces, keep) <==> w in pieces && keep(w) {
      if w in Kept(pieces, keep) {
        var i :| 0 <= i < |Kept(pieces, keep)| && Kept(pieces, keep)[i] == w;
        var j := KeptSound(pieces, keep, i);
      }
      if w in pieces && keep(w) {
        var j :| 0 <= j < |pieces| && pieces[j] == w;
        KeptComplete(pieces, keep, j);
      }
    }
  }

  /** The test `len(entry.strip()) >= min` that lets an entry through. */
  function LongEnough(min: nat): string -> bool {
    x => |Strip(x)| >= min
  }

  // ---------------------------------------------------------------------------
  // Leading fields: `re.search(r'^([^...]+)', entry.strip())`

  /**
    The stripped group of `^([^stops]+)` on the stripped entry, or `''` when
    the stripped entry is empty or starts with a stop character.
  */
  function LeadingField(entry: string, stops: seq<char>): string {
    var t := Strip(entry);
    if t != [] && t[0] !in stops then Strip(t[..RunEnd(t, 0, stops)]) else ""
  }

  /**
    `r` is what a leading field of the stripped entry `t` looks like: a
    stripped prefix of `t` without stop characters, followed in `t` by a stop
    or whitespace when it ends early, and empty exactly when `t` is empty or
    starts with a stop.
  */
  predicate IsLeadingField(t: string, r: string, stops: seq<char>) {
    && (r == "" <==> t == "" || t[0] in stops)
    && StartsWith(t, r) && Stripped(r)
    && (forall k :: 0 <= k < |r| ==> r[k] !in stops)
    && (r != "" && |r| < |t| ==> t[|r|] in stops || IsSpace(t[|r|]))
  }

  /** The leading field of an already stripped text. */
  lemma LeadingFieldOfStripped(t: string, stops: seq<char>)
    requires t != [] && !IsSpace(t[0]) && t[0] !in stops
    ensures IsLeadingField(t, Strip(t[..RunEnd(t, 0, stops)]), stops)
  {
    var n := RunEnd(t, 0, stops);
    var u := t[..n];
    assert u[0] == t[0];
    StripOfLeading(u);
    var r := Strip(u);
    assert u[..|r|] == t[..|r|];
    forall k | 0 <= k < |r| ensures r[k] !in stops {
      assert r[k] == u[k] == t[k];
    }
    if |r| < |t| {
      if |r| < n {
        assert u[|r|] == t[|r|];
      }
    }
  }

  lemma LeadingFieldShape(entry: string, stops: seq<char>)
    ensures IsLeadingField(Strip(entry), LeadingField(entry, stops), stops)
  {
    var t := Strip(entry);
    if t != [] && t[0] !in stops {
      LeadingFieldOfStripped(t, stops);
    }
  }

  // ---------------------------------------------------------------------------
  // The company / institution pattern: at\s+([^,\n]+)|([^,\n]+)\s*,\s*([^,\n]+)

  /** The group of the first alternative `at\s+([^,\n]+)` when it matches at `p`. */
  function AtClauseAt(s: string, p: nat): (r: Option<(nat, nat)>)
    requires p <= |s|
    ensures r.Some? ==> p + 3 <= r.value.0 < r.value.1 <= |s|
    ensures r.Some? ==> forall k :: r.value.0 <= k < r.value.1 ==> FieldChar(s[k])
  {
    if p + 2 <= |s| && s[p] == 'a' && s[p + 1] == 't' then FieldAfter(s, p + 2, 1) else None
  }

  /**
    The first group of the second alternative `([^,\n]+)\s*,\s*([^,\n]+)`
    when it matches at `p`. Shrinking the greedy first group cannot reach
    another comma, so the greedy choice is the only one that can succeed.
  */
  function CommaPairAt(s: string, p: nat): (r: Option<(nat, nat)>)
    requires p <= |s|
    ensures r.Some? ==> r.value.0 == p < r.value.1 <= |s|
    ensures r.Some? ==> forall k :: r.value.0 <= k < r.value.1 ==> FieldChar(s[k])
  {
    if p < |s| && FieldChar(s[p]) then
      var e := RunEnd(s, p, ",\n");
      var h := SkipSpaces(s, e);
      if h < |s| && s[h] == ',' && FieldAfter(s, h + 1, 0).Some? then Some((p, e)) else None
    else None
  }

  /** What `group(1) or group(2)` gives for a match at `p`: the first alternative wins when both match. */
  function OrganisationAt(s: string, p: nat): (r: Option<(nat, nat)>)
    requires p <= |s|
    ensures r.Some? ==> p <= r.value.0 < r.value.1 <= |s|
    ensures r.Some? ==> forall k :: r.value.0 <= k < r.value.1 ==> FieldChar(s[k])
  {
    if AtClauseAt(s, p).Some? then AtClauseAt(s, p) else CommaPairAt(s, p)
  }

  /** The outcome of the company pattern at every offset of `s`. */
  function OrganisationMatches(s: string): (ms: seq<Option<(nat, nat)>>)
    ensures |ms| == |s| + 1
  {
    seq(|s| + 1, q requires 0 <= q <= |s| => OrganisationAt(s, q))
  }

  /** The company (or institution) of an entry: the group of the leftmost match, unstripped, or `''`. */
  function Organisation(entry: string): string {
    var ms := OrganisationMatches(entry);
    match Leftmost(ms, 0)
    case Some(p) => entry[ms[p].value.0..ms[p].value.1]
    case None => ""
  }

  /**
    The organisation is empty exactly when the pattern matches nowhere;
    otherwise it is a non-empty comma- and newline-free slice of the entry.
  */
  lemma OrganisationShape(entry: string)
    ensures var r := Organisation(entry);
      && (r == "" <==> forall q :: 0 <= q <= |entry| ==> OrganisationAt(entry, q).None?)
      && Contains(entry, r)
      && forall k :: 0 <= k < |r| ==> FieldChar(r[k])
  {
    var ms := OrganisationMatches(entry);
    match Leftmost(ms, 0)
    case Some(p) =>
      assert ms[p] == OrganisationAt(entry, p);
      var g := ms[p].value;
      assert OccursAt(entry, entry[g.0..g.1], g.0);
    case None =>
      forall q | 0 <= q <= |entry| ensures OrganisationAt(entry, q).None? {
        assert ms[q] == OrganisationAt(entry, q);
      }
      assert OccursAt(entry, "", 0);
  }

  // ---------------------------------------------------------------------------
  // The date pattern: (\d{4})\s*[-–]\s*(\d{4}|present|current), ignoring case

  predicate IsDash(c: char) { c == '-' || c == '–' }

  /** The end-date group: four digits, else `present`, else `current`, in any letter case. */
  predicate IsEndDate(e: string) {
    (|e| == 4 && AllDigits(e)) || Lower(e) == "present" || Lower(e) == "current"
  }

  /** The second group at `r`: the alternatives in the order they are tried. */
  function DateEndAt(s: string, r: nat): (e: Option<string>)
    requires r <= |s|
    ensures e.Some? ==> IsEndDate(e.value)
  {
    if FourDigitsAt(s, r) then Some(s[r..r + 4])
    else if r + 7 <= |s| && Lower(s[r..r + 7]) == "present" then Some(s[r..r + 7])
    else if r + 7 <= |s| && Lower(s[r..r + 7]) == "current" then Some(s[r..r + 7])
    else None
  }

  /**
    Both groups of the date pattern matched at `p`. A shorter `\s*` would
    leave a space where the dash or the end date must be, so the greedy runs
    are the only ones that can succeed.
  */
  function DateRangeAt(s: string, p: nat): (r: Option<(string, string)>)
    requires p <= |s|
    ensures r.Some? ==> |r.value.0| == 4 && AllDigits(r.value.0) && IsEndDate(r.value.1)
  {
    if FourDigitsAt(s, p) then
      var q := SkipSpaces(s, p + 4);
      if q < |s| && IsDash(s[q]) then
        match DateEndAt(s, SkipSpaces(s, q + 1))
        case Some(e) => Some((s[p..p + 4], e))
        case None => None
      else None
    else None
  }

  function DateMatches(s: string): (ms: seq<Option<(string, string)>>)
    ensures |ms| == |s| + 1
  {
    seq(|s| + 1, q requires 0 <= q <= |s| => DateRangeAt(s, q))
  }

  /** `(start_date, end_date)` of an entry: the groups of the leftmost date match, or both `''`. */
  function DateRange(entry: string): (string, string) {
    var ms := DateMatches(entry);
    match Leftmost(ms, 0)
    case Some(p) => ms[p].value
    case None => ("", "")
  }

  /**
    Either both dates are empty, and the pattern matches nowhere, or the
    start is four digits and the end is four digits, `present` or `current`.
  */
  lemma DateRangeShape(entry: string)
    ensures var (a, b) := DateRange(entry);
      || (a == "" && b == "" && forall q :: 0 <= q <= |entry| ==> DateRangeAt(entry, q).None?)
      || (|a| == 4 && AllDigits(a) && IsEndDate(b))
  {
    var ms := DateMatches(entry);
    match Leftmost(ms, 0)
    case Some(p) =>
      assert ms[p] == DateRangeAt(entry, p);
    case None =>
      forall q | 0 <= q <= |entry| ensures DateRangeAt(entry, q).None? {
        assert ms[q] == DateRangeAt(entry, q);
      }
  }

  // ---------------------------------------------------------------------------
  // The degree and year patterns of education entries

  const DegreeWords: seq<string> := ["degree", "bachelor", "master", "phd", "doctorate"]

  /** `w` occurs at `x`, ignoring ASCII case. */
  predicate OccursCIAt(s: string, w: string, x: nat) {
    x + |w| <= |s| && Lower(s[x..x + |w|]) == w
  }

  /** A degree word fits in `[x, hi)`, ignoring case. */
  predicate DegreeWordAt(s: string, x: nat, hi: nat) {
    exists j :: 0 <= j < |DegreeWords| && x + |DegreeWords[j]| <= hi && OccursCIAt(s, DegreeWords[j], x)
  }

  /** Some degree word starts in `[lo, hi)` and ends by `hi`. */
  function DegreeWordIn(s: string, lo: nat, hi: nat): (r: bool)
    requires lo <= hi <= |s|
    ensures r <==> exists x :: lo <= x < hi && DegreeWordAt(s, x, hi)
    decreases hi - lo
  {
    if lo == hi then false
    else if DegreeWordAt(s, lo, hi) then true
    else DegreeWordIn(s, lo + 1, hi)
  }

  /**
    The end of the group of `([A-Z][^,\n]*(?:degree|...)[^,\n]*)` (ignoring
    case) at `p`: a letter, then a degree word starting at least `gap`
    characters later on the same comma-free run, the group running to the end
    of that run. As written the pattern has `gap == 1`, because the letter
    class consumes a character before the word can start; the intended
    pattern, which lets the word itself begin the group, has `gap == 0`.
  */
  function DegreePhraseAt(s: string, p: nat, gap: nat): (r: Option<nat>)
    requires p <= |s| && gap <= 1
    ensures r.Some? ==> p < r.value <= |s| && IsLetter(s[p])
    ensures r.Some? ==> forall k :: p <= k < r.value ==> FieldChar(s[k])
  {
    if p < |s| && IsLetter(s[p]) then
      var e := RunEnd(s, p, ",\n");
      if DegreeWordIn(s, p + gap, e) then Some(e) else None
    else None
  }

  function DegreeMatches(s: string, gap: nat): (ms: seq<Option<nat>>)
    requires gap <= 1
    ensures |ms| == |s| + 1
  {
    seq(|s| + 1, q requires 0 <= q <= |s| => DegreePhraseAt(s, q, gap))
  }

  /** The stripped group of the leftmost degree match, or `''`. */
  function DegreeOf(entry: string, gap: nat): string
    requires gap <= 1
  {
    var ms := DegreeMatches(entry, gap);
    match Leftmost(ms, 0)
    case Some(p) =>
      assert ms[p] == DegreePhraseAt(entry, p, gap);
      Strip(entry[p..ms[p].value])
    case None => ""
  }

  /** The degree of an education entry, by the intended pattern. */
  function Degree(entry: string): string {
    DegreeOf(entry, 0)
  }

  /** The degree as the program's pattern computes it. */
  function DegreeAsWritten(entry: string): string {
    DegreeOf(entry, 1)
  }

  /** A stripped text without commas or newlines: the shape of a stripped `[^,\n]+` group. */
  predicate StrippedField(r: string) {
    Stripped(r) && forall k :: 0 <= k < |r| ==> FieldChar(r[k])
  }

  lemma StripOfField(g: string)
    requires forall k :: 0 <= k < |g| ==> FieldChar(g[k])
    ensures StrippedField(Strip(g))
  {
    StripContained(g);
    FieldCharsInside(g, Strip(g));
  }

  /** A degree is a stripped field, and empty exactly when the pattern matches nowhere. */
  lemma DegreeShape(entry: string, gap: nat)
    requires gap <= 1
    ensures StrippedField(DegreeOf(entry, gap))
    ensures DegreeOf(entry, gap) == "" <==> forall q :: 0 <= q <= |entry| ==> DegreePhraseAt(entry, q, gap).None?
  {
    var ms := DegreeMatches(entry, gap);
    match Leftmost(ms, 0)
    case Some(p) =>
      DegreeFoundShape(entry, gap, p);
    case None =>
      forall q | 0 <= q <= |entry| ensures DegreePhraseAt(entry, q, gap).None? {
        assert ms[q] == DegreePhraseAt(entry, q, gap);
      }
  }

  lemma DegreeFoundShape(entry: string, gap: nat, p: nat)
    requires gap <= 1 && Leftmost(DegreeMatches(entry, gap), 0) == Some(p)
    ensures DegreeOf(entry, gap) != "" && StrippedField(DegreeOf(entry, gap))
  {
    var ms := DegreeMatches(entry, gap);
    assert ms[p] == DegreePhraseAt(entry, p, gap);
    var g := entry[p..ms[p].value];
    StripOfField(g);
    StripOfLeading(g);
  }

  /** The letters of a degree word are letters of the text it occurs in. */
  lemma DegreeWordLetters(s: string, j: nat, k: nat)
    requires j < |DegreeWords| && OccursCIAt(s, DegreeWords[j], 0) && k < |DegreeWords[j]|
    ensures IsLetter(s[k])
  {
    assert Lower(s[0..|DegreeWords[j]|])[k] == LowerChar(s[k]);
    assert IsLetter(DegreeWords[j][k]);
  }

  /**
    By the intended pattern, an entry that begins with a degree word (such as
    `Bachelor of Science, ...`) has a non-empty degree, starting there.
  */
  lemma DegreeOfLeadingWord(entry: string, j: nat)
    requires j < |DegreeWords| && OccursCIAt(entry, DegreeWords[j], 0)
    ensures Degree(entry) != "" && StartsWith(entry, Degree(entry))
  {
    var w := DegreeWords[j];
    forall k | 0 <= k < |w| ensures FieldChar(entry[k]) {
      DegreeWordLetters(entry, j, k);
    }
    DegreeWordLetters(entry, j, 0);
    var e := RunEnd(entry, 0, ",\n");
    assert |w| <= e;
    assert DegreeWordAt(entry, 0, e);
    var ms := DegreeMatches(entry, 0);
    assert ms[0] == DegreePhraseAt(entry, 0, 0) == Some(e);
    assert Leftmost(ms, 0) == Some(0);
    StripOfLeading(entry[0..e]);
  }

  /**
    As written, a degree word can only start after the first character of the
    group, so a text shorter than one character plus the shortest degree word
    (three letters) has no degree.
  */
  lemma DegreeAsWrittenNeedsRoom(s: string)
    requires |s| <= 3
    ensures DegreeAsWritten(s) == ""
  {
    forall q | 0 <= q <= |s| ensures DegreePhraseAt(s, q, 1).None? {
      if q < |s| && IsLetter(s[q]) {
        var e := RunEnd(s, q, ",\n");
        forall x | q + 1 <= x < e ensures !DegreeWordAt(s, x, e) {
          forall j | 0 <= j < |DegreeWords| ensures x + |DegreeWords[j]| > e {
            assert |DegreeWords[j]| >= 3;
          }
        }
      }
    }
    DegreeShape(s, 1);
  }

  /**
    The pattern as written misses a degree word that begins the phrase: for
    `PhD` it finds no degree, where the intended pattern finds one.
  */
  lemma DegreeAsWrittenMissesLeadingWord()
    ensures DegreeAsWritten("PhD") == ""
    ensures Degree("PhD") != ""
  {
    assert OccursCIAt("PhD", DegreeWords[3], 0);
    DegreeOfLeadingWord("PhD", 3);
    DegreeAsWrittenNeedsRoom("PhD");
  }

  /** `re.search(r'(\d{4})', ...)` at every offset. */
  function YearMatches(s: string): (ms: seq<Option<string>>)
    ensures |ms| == |s| + 1
  {
    seq(|s| + 1, q requires 0 <= q <= |s| => if FourDigitsAt(s, q) then Some(s[q..q + 4]) else None)
  }

  /** The year of an education entry: its first four consecutive digits, or `''`. */
  function Year(entry: string): string {
    var ms := YearMatches(entry);
    match Leftmost(ms, 0)
    case Some(p) => ms[p].value
    case None => ""
  }

  /** `r` is the first run of four consecutive digits in `entry`, or empty when there is none. */
  predicate IsFirstYear(entry: string, r: string) {
    && (r == "" <==> forall q :: 0 <= q <= |entry| ==> !FourDigitsAt(entry, q))
    && (r != "" ==> exists p :: (0 <= p <= |entry| && FourDigitsAt(entry, p) && r == entry[p..p + 4]
          && forall q :: 0 <= q < p ==> !FourDigitsAt(entry, q)))
  }

  /** The year is empty exactly when the entry has no four consecutive digits; otherwise it is the first such run. */
  lemma YearShape(entry: string)
    ensures IsFirstYear(entry, Year(entry))
  {
    var ms := YearMatches(entry);
    match Leftmost(ms, 0)
    case Some(p) =>
      assert FourDigitsAt(entry, p);
      forall q | 0 <= q < p ensures !FourDigitsAt(entry, q) {
        assert ms[q].None?;
      }
    case None =>
      forall q | 0 <= q <= |entry| ensures !FourDigitsAt(entry, q) {
        assert ms[q].None?;
      }
  }

  // ---------------------------------------------------------------------------
  // Vocabulary mentions of project entries

  /** The test `tech.lower() in entry.lower()`. */
  function Mentions(entry: string): string -> bool {
    w => ContainsCI(entry, w)
  }

  /** Filtering one more word. */
  lemma KeptSnoc(a: seq<string>, x: string, keep: string -> bool)
    ensures Kept(a + [x], keep) == Kept(a, keep) + (if keep(x) then [x] else [])
  {
    SnocPrefix(a, x);
  }

  /** The nested loop over the categories that collects the technologies an entry mentions. */
  method MentionedTechnologies(cats: seq<seq<string>>, entry: string) returns (techs: seq<string>)
    ensures techs == Kept(Flatten(cats), Mentions(entry))
  {
    ghost var keep := Mentions(entry);
    techs := [];
    for c := 0 to |cats|
      invariant techs == Kept(Flatten(cats[..c]), keep)
    {
      ghost var done := Flatten(cats[..c]);
      PrefixNone(done, cats[c]);
      for j := 0 to |cats[c]|
        invariant techs == Kept(done + cats[c][..j], keep)
      {
        PrefixSnoc(done, cats[c], j);
        KeptSnoc(done + cats[c][..j], cats[c][j], keep);
        if Contains(Lower(entry), Lower(cats[c][j])) {
          techs := techs + [cats[c][j]];
        }
      }
      FlattenSnoc(cats, c);
    }
    PrefixWhole(cats);
  }

  // ---------------------------------------------------------------------------
  // Entry records

  /** The record `_extract_experience` builds from one kept entry. */
  function ExperienceOf(entry: string): ExperienceEntry {
    var (start, end) := DateRange(entry);
    ExperienceEntry(LeadingField(entry, ",\n"), Organisation(entry), start, end, Strip(entry))
  }

  /** The record `_extract_education` builds from one kept entry. */
  function EducationOf(entry: string): EducationEntry {
    EducationEntry(DegreeAsWritten(entry), Organisation(entry), Year(entry), Strip(entry))
  }

  /**
    The record `_extract_projects` builds from one kept entry, given the skill
    vocabulary by category (the program passes `SkillCategories`).
  */
  function ProjectOf(cats: seq<seq<string>>, entry: string): ProjectEntry {
    ProjectEntry(LeadingField(entry, ":\n"), Strip(entry), Kept(Flatten(cats), Mentions(entry)))
  }

  /** `ProjectOf` for a fixed vocabulary, as a builder for `Records`. */
  function ProjectBuilder(cats: seq<seq<string>>): string -> ProjectEntry {
    entry => ProjectOf(cats, entry)
  }

  /** The records built from the kept entries, one each, in order. */
  function Records<R>(kept: seq<string>, build: string -> R): (r: seq<R>)
    ensures |r| == |kept| && forall i :: 0 <= i < |r| ==> r[i] == build(kept[i])
  {
    if kept == [] then [] else Records(kept[..|kept| - 1], build) + [build(kept[|kept| - 1])]
  }

  /** One more kept entry appends one more record. */
  lemma RecordsSnoc<R>(kept: seq<string>, x: string, build: string -> R)
    ensures Records(kept + [x], build) == Records(kept, build) + [build(x)]
  {
    SnocPrefix(kept, x);
  }

  /** `_extract_experience(text)`: one record per long enough piece, in split order. */
  function ExperienceEntries(text: string): seq<ExperienceEntry> {
    if text == "" then [] else Records(Kept(Pieces(ExperienceSplit, text), LongEnough(MinExperienceLength)), ExperienceOf)
  }

  /** `_extract_education(text)`. */
  function EducationEntries(text: string): seq<EducationEntry> {
    if text == "" then [] else Records(Kept(Pieces(EducationSplit, text), LongEnough(MinEducationLength)), EducationOf)
  }

  /** `_extract_projects(text)`. */
  function ProjectEntries(cats: seq<seq<string>>, text: string): seq<ProjectEntry> {
    if text == "" then [] else Records(Kept(Pieces(ProjectsSplit, text), LongEnough(MinProjectLength)), ProjectBuilder(cats))
  }

  // ---------------------------------------------------------------------------
  // The extraction loops

  /** One record of `_extract_experience`: created with empty fields, then the matched ones filled in. */
  method ExperienceRecord(entry: string) returns (experience: ExperienceEntry)
    ensures experience == ExperienceOf(entry)
  {
    experience := ExperienceEntry(LeadingField(entry, ",\n"), "", "", "", Strip(entry));
    var company := Organisation(entry);
    if company != "" {
      experience := experience.(company := company);
    }
    var (start, end) := DateRange(entry);
    DateRangeShape(entry);
    if start != "" {
      experience := experience.(startDate := start, endDate := end);
    }
  }

  /** The loop of `_extract_experience` over the split entries. */
  method BuildExperience(entries: seq<string>) returns (experiences: seq<ExperienceEntry>)
    ensures experiences == Records(Kept(entries, LongEnough(MinExperienceLength)), ExperienceOf)
  {
    experiences := [];
    ghost var keep := LongEnough(MinExperienceLength);
    for i := 0 to |entries|
      invariant experiences == Records(Kept(entries[..i], keep), ExperienceOf)
    {
      KeptStep(entries, keep, i);
      if |Strip(entries[i])| >= MinExperienceLength {
        var experience := ExperienceRecord(entries[i]);
        experiences := experiences + [experience];
      }
    }
    PrefixWhole(entries);
  }

  /** `_extract_experience`. */
  method ExtractExperience(text: string) returns (experiences: seq<ExperienceEntry>)
    ensures experiences == ExperienceEntries(text)
  {
    if text == "" {
      return [];
    }
    var entries := Pieces(ExperienceSplit, text);
    experiences := BuildExperience(entries);
  }

  /** One record of `_extract_education`. */
  method EducationRecord(entry: string) returns (edu: EducationEntry)
    ensures edu == EducationOf(entry)
  {
    edu := EducationEntry(DegreeAsWritten(entry), "", "", Strip(entry));
    var institution := Organisation(entry);
    if institution != "" {
      edu := edu.(institution := institution);
    }
    var year := Year(entry);
    if year != "" {
      edu := edu.(year := year);
    }
  }

  /** The loop of `_extract_education` over the split entries. */
  method BuildEducation(entries: seq<string>) returns (education: seq<EducationEntry>)
    ensures education == Records(Kept(entries, LongEnough(MinEducationLength)), EducationOf)
  {
    education := [];
    ghost var keep := LongEnough(MinEducationLength);
    for i := 0 to |entries|
      invariant education == Records(Kept(entries[..i], keep), EducationOf)
    {
      KeptStep(entries, keep, i);
      if |Strip(entries[i])| >= MinEducationLength {
        var edu := EducationRecord(entries[i]);
        education := education + [edu];
      }
    }
    PrefixWhole(entries);
  }

  /** `_extract_education`. */
  method ExtractEducation(text: string) returns (education: seq<EducationEntry>)
    ensures education == EducationEntries(text)
  {
    if text == "" {
      return [];
    }
    var entries := Pieces(EducationSplit, text);
    education := BuildEducation(entries);
  }

  /** One record of `_extract_projects`: the technologies list is filled by the vocabulary loop. */
  method ProjectRecord(cats: seq<seq<string>>, entry: string) returns (project: ProjectEntry)
    ensures project == ProjectOf(cats, entry)
  {
    var techs := MentionedTechnologies(cats, entry);
    project := ProjectEntry(LeadingField(entry, ":\n"), Strip(entry), techs);
  }

  /** The loop of `_extract_projects` over the split entries. */
  method BuildProjects(cats: seq<seq<string>>, entries: seq<string>) returns (projects: seq<ProjectEntry>)
    ensures projects == Records(Kept(entries, LongEnough(MinProjectLength)), ProjectBuilder(cats))
  {
    projects := [];
    ghost var keep := LongEnough(MinProjectLength);
    for i := 0 to |entries|
      invariant projects == Records(Kept(entries[..i], keep), ProjectBuilder(cats))
    {
      KeptStep(entries, keep, i);
      if |Strip(entries[i])| >= MinProjectLength {
        var project := ProjectRecord(cats, entries[i]);
        projects := projects + [project];
      }
    }
    PrefixWhole(entries);
  }

  /** `_extract_projects`. */
  method ExtractProjects(text: string) returns (projects: seq<ProjectEntry>)
    ensures projects == ProjectEntries(SkillCategories, text)
  {
    if text == "" {
      return [];
    }
    var entries := Pieces(ProjectsSplit, text);
    projects := BuildProjects(SkillCategories, entries);
  }
}
