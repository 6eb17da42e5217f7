/**
  `extract_contact_info`: five fixed patterns, each searched for with
  `re.search` (the leftmost offset at which the pattern matches), filling a
  five-key dictionary whose values default to `''`.
*/
module Contact {
  import opened Wrappers
  import opened Text
  import opened Utils

  /** The end of the run of characters satisfying `p` from `i` (a greedy class repetition). */
  function RunWhile(s: string, i: nat, p: char -> bool): (r: nat)
    requires i <= |s|
    ensures i <= r <= |s|
    ensures r == |s| || !p(s[r])
    ensures forall k :: i <= k < r ==> p(s[k])
    decreases |s| - i
  {
    if i < |s| && p(s[i]) then RunWhile(s, i + 1, p) else i
  }

  /** Regex `\b` at offset `i`: a word character on exactly one side. */
  predicate Boundary(s: string, i: nat)
    requires i <= |s|
  {
    (i > 0 && IsWordChar(s[i - 1])) != (i < |s| && IsWordChar(s[i]))
  }

  // ---------------------------------------------------------------------------
  // E-mail: \b[A-Za-z0-9._%+-]+@[A-Za-z0-9.-]+\.[A-Z|a-z]{2,}\b

  /**
    The class of the top-level domain. As written it is `[A-Z|a-z]`, which
    admits `|` besides the letters (`withBar`); the evident intent is
    `[A-Za-z]`.
  */
  predicate TldChar(c: char, withBar: bool) {
    IsLetter(c) || (withBar && c == '|')
  }

  /** The largest `q` in `[lo, hi]` with a word boundary at `q`. */
  function LastBoundary(s: string, lo: nat, hi: nat): (r: Option<nat>)
    requires hi <= |s|
    ensures r.Some? ==> lo <= r.value <= hi && Boundary(s, r.value)
    ensures r.None? ==> forall q :: lo <= q <= hi ==> !Boundary(s, q)
    decreases hi
  {
    if hi < lo then None
    else if Boundary(s, hi) then Some(hi)
    else if hi == 0 then None
    else LastBoundary(s, lo, hi - 1)
  }

  /** `\.[A-Z|a-z]{2,}\b` with the dot at `j`: the end of the match, the repetition giving back characters until `\b` holds. */
  function TldAt(s: string, j: nat, withBar: bool): (r: Option<nat>)
    requires j < |s|
    ensures r.Some? ==> s[j] == '.' && j + 3 <= r.value <= |s|
    ensures r.Some? ==> forall k :: j < k < r.value ==> TldChar(s[k], withBar)
  {
    if s[j] != '.' then None
    else LastBoundary(s, j + 3, RunWhile(s, j + 1, c => TldChar(c, withBar)))
  }

  /**
    The domain part `[A-Za-z0-9.-]+` giving back characters: the candidate
    dots in `[lo, hi)` are tried from the right. The result is the dot and
    the end of the match.
  */
  function DotFrom(s: string, lo: nat, hi: nat, withBar: bool): (r: Option<(nat, nat)>)
    requires hi <= |s|
    ensures r.Some? ==> lo <= r.value.0 < hi && TldAt(s, r.value.0, withBar) == Some(r.value.1)
    decreases hi
  {
    if hi <= lo then None
    else match TldAt(s, hi - 1, withBar)
      case Some(q) => Some((hi - 1, q))
      case None => DotFrom(s, lo, hi - 1, withBar)
  }

  /** `[A-Za-z0-9.-]` */
  predicate DomainClass(c: char) { DomainChar(c) }

  /** `s[p..q]` is a local part, an `@` at `at`, a domain, a dot at `dot` and at least two top-level-domain characters. */
  predicate EmailSpan(s: string, p: nat, at: nat, dot: nat, q: nat, withBar: bool) {
    && p < at && at + 1 < dot && dot + 3 <= q <= |s|
    && s[at] == '@' && s[dot] == '.'
    && (forall k :: p <= k < at ==> LocalChar(s[k]))
    && (forall k :: at < k < dot ==> DomainChar(s[k]))
    && (forall k :: dot < k < q ==> TldChar(s[k], withBar))
  }

  /** The e-mail pattern at `p`: the `@`, the dot and the end, when it matches. */
  function EmailAt(s: string, p: nat, withBar: bool): (r: Option<(nat, nat, nat)>)
    requires p <= |s|
    ensures r.Some? ==> EmailSpan(s, p, r.value.0, r.value.1, r.value.2, withBar)
  {
    if p < |s| && Boundary(s, p) && LocalChar(s[p]) then
      var at := RunWhile(s, p, LocalChar);
      if at < |s| && s[at] == '@' then
        var e := RunWhile(s, at + 1, DomainClass);
        match DotFrom(s, at + 2, e, withBar)
        case Some((dot, q)) => Some((at, dot, q))
        case None => None
      else None
    else None
  }

  function EmailMatches(s: string, withBar: bool): (ms: seq<Option<(nat, nat, nat)>>)
    ensures |ms| == |s| + 1
  {
    seq(|s| + 1, q requires 0 <= q <= |s| => EmailAt(s, q, withBar))
  }

  /** The whole leftmost e-mail match, or `''`. */
  function EmailSearch(text: string, withBar: bool): string {
    var ms := EmailMatches(text, withBar);
    match Leftmost(ms, 0)
    case Some(p) =>
      assert ms[p] == EmailAt(text, p, withBar);
      text[p..ms[p].value.2]
    case None => ""
  }

  /** The e-mail the intended pattern, with the class `[A-Za-z]`, would report. */
  function EmailIn(text: string): string {
    EmailSearch(text, false)
  }

  /** The e-mail as the program's pattern reports it. */
  function EmailInAsWritten(text: string): string {
    EmailSearch(text, true)
  }

  /** `r` splits as local part, `@` at `at`, domain, dot at `dot` and at least two top-level-domain characters. */
  predicate EmailParts(r: string, at: nat, dot: nat, withBar: bool) {
    EmailSpan(r, 0, at, dot, |r|, withBar)
  }

  /** A span of the text read on its own. */
  lemma EmailSpanParts(s: string, p: nat, at: nat, dot: nat, q: nat, withBar: bool)
    requires EmailSpan(s, p, at, dot, q, withBar)
    ensures EmailParts(s[p..q], at - p, dot - p, withBar)
  {
    var r := s[p..q];
    assert forall k :: 0 <= k < |r| ==> r[k] == s[p + k];
    forall k | 0 <= k < at - p ensures LocalChar(r[k]) {
      assert r[k] == s[p + k];
    }
    forall k | at - p < k < dot - p ensures DomainChar(r[k]) {
      assert r[k] == s[p + k];
    }
    forall k | dot - p < k < |r| ensures TldChar(r[k], withBar) {
      assert r[k] == s[p + k];
    }
  }

  /** The e-mail is empty exactly when the pattern matches nowhere. */
  lemma EmailSearchEmpty(text: string, withBar: bool)
    ensures EmailSearch(text, withBar) == "" <==> forall p :: 0 <= p <= |text| ==> EmailAt(text, p, withBar).None?
  {
    var ms := EmailMatches(text, withBar);
    match Leftmost(ms, 0)
    case Some(p) =>
      assert ms[p] == EmailAt(text, p, withBar);
    case None =>
      forall p | 0 <= p <= |text| ensures EmailAt(text, p, withBar).None? {
        assert ms[p] == EmailAt(text, p, withBar);
      }
  }

  /**
    An e-mail found is a slice of the text made of a local part, `@`, a
    domain and a top-level domain.
  */
  lemma EmailSearchShape(text: string, withBar: bool)
    ensures var r := EmailSearch(text, withBar);
      r != "" ==> Contains(text, r) && exists at: nat, dot: nat :: EmailParts(r, at, dot, withBar)
  {
    var ms := EmailMatches(text, withBar);
    match Leftmost(ms, 0)
    case Some(p) =>
      assert ms[p] == EmailAt(text, p, withBar);
      var (at, dot, q) := ms[p].value;
      SpanShape(text, p, at, dot, q, withBar);
    case None =>
  }

  /** A matched span is a slice of the text that splits into the parts of an address. */
  lemma SpanShape(text: string, p: nat, at: nat, dot: nat, q: nat, withBar: bool)
    requires EmailSpan(text, p, at, dot, q, withBar)
    ensures Contains(text, text[p..q]) && exists at: nat, dot: nat :: EmailParts(text[p..q], at, dot, withBar)
  {
    assert OccursAt(text, text[p..q], p);
    EmailSpanParts(text, p, at, dot, q, withBar);
  }

  /** By the intended pattern, every e-mail found passes `validate_email`. */
  lemma EmailInIsValid(text: string)
    ensures EmailIn(text) != "" ==> ValidateEmail(EmailIn(text))
  {
    EmailSearchShape(text, false);
    var r := EmailIn(text);
    if r != "" {
      var at: nat, dot: nat :| EmailParts(r, at, dot, false);
      PartsValid(r, at, dot);
    }
  }

  /** An address made of the intended pattern's parts passes `validate_email`. */
  lemma PartsValid(r: string, at: nat, dot: nat)
    requires EmailParts(r, at, dot, false)
    ensures ValidateEmail(r)
  {
    assert TldChar(r[|r| - 1], false);
    assert EmailBody(r) == r;
    forall k | dot < k < |r| ensures IsLetter(r[k]) {
      assert TldChar(r[k], false);
    }
    assert EmailMatch(r, at, dot);
    ValidateEmailMatches(r);
  }

  /**
    As written, the top-level-domain class admits `|`: in `a@b.c|d` the
    pattern reports `a@b.c|d`, which `validate_email` refuses.
  */
  lemma EmailAsWrittenAdmitsBar()
    ensures EmailInAsWritten("a@b.c|d") == "a@b.c|d"
  {
    var s := "a@b.c|d";
    BarEmailAt();
    var ms := EmailMatches(s, true);
    assert ms[0].Some?;
    assert s[0..7] == s;
  }

  lemma BarEmailAt()
    ensures EmailAt("a@b.c|d", 0, true) == Some((1, 3, 7))
  {
    var s := "a@b.c|d";
    assert Boundary(s, 0);
    assert RunWhile(s, 1, LocalChar) == 1;
    assert RunWhile(s, 0, LocalChar) == 1;
    assert RunWhile(s, 5, DomainClass) == 5;
    assert RunWhile(s, 4, DomainClass) == 5;
    assert RunWhile(s, 3, DomainClass) == 5;
    assert RunWhile(s, 2, DomainClass) == 5;
    BarTld();
  }

  lemma BarTld()
    ensures TldAt("a@b.c|d", 4, true) == None
    ensures TldAt("a@b.c|d", 3, true) == Some(7)
  {
    var s := "a@b.c|d";
    assert TldAt(s, 4, true) == None;
    var bar := c => TldChar(c, true);
    assert RunWhile(s, 7, bar) == 7;
    assert RunWhile(s, 6, bar) == 7;
    assert RunWhile(s, 5, bar) == 7;
    assert RunWhile(s, 4, bar) == 7;
    assert Boundary(s, 7);
  }

  /** `validate_email` refuses `a@b.c|d`: its top-level domain is not all letters. */
  lemma BarAddressInvalid()
    ensures !ValidateEmail("a@b.c|d")
  {
    var s := "a@b.c|d";
    ValidateEmailMatches(s);
    assert EmailBody(s) == s;
    assert !IsLetter(s[5]);
  }

  // ---------------------------------------------------------------------------
  // Phone: (\+?1[-.\s]?)?\(?([0-9]{3})\)?[-.\s]?([0-9]{3})[-.\s]?([0-9]{4})

  /** The optional single characters of the phone pattern. */
  datatype Punct = Plus | Separator | Open | Close

  predicate InPunct(c: char, p: Punct) {
    match p
    case Plus => c == '+'
    case Separator => c == '-' || c == '.' || IsSpace(c)
    case Open => c == '('
    case Close => c == ')'
  }

  /** One element of the phone pattern: a required digit (`[0-9]` or `1`), or an optional punctuation character (a greedy `?`). */
  datatype Atom = AnyDigit | DigitOne | Optional(p: Punct)

  /**
    A sequence of atoms matched from `i` with backtracking: an optional
    character is taken when the rest can then match, and skipped otherwise.
    The result is the end of the first match in that order.
  */
  function MatchAtoms(s: string, i: nat, atoms: seq<Atom>): (r: Option<nat>)
    requires i <= |s|
    ensures r.Some? ==> i <= r.value <= |s|
    decreases |atoms|
  {
    if atoms == [] then Some(i)
    else match atoms[0]
      case AnyDigit =>
        if i < |s| && IsDigit(s[i]) then MatchAtoms(s, i + 1, atoms[1..]) else None
      case DigitOne =>
        if i < |s| && s[i] == '1' then MatchAtoms(s, i + 1, atoms[1..]) else None
      case Optional(p) =>
        if i < |s| && InPunct(s[i], p) && MatchAtoms(s, i + 1, atoms[1..]).Some? then MatchAtoms(s, i + 1, atoms[1..])
        else MatchAtoms(s, i, atoms[1..])
  }

  /** `(\+?1[-.\s]?)` */
  const CountryCode: seq<Atom> := [Optional(Plus), DigitOne, Optional(Separator)]

  /** `\(?([0-9]{3})\)?[-.\s]?` */
  const AreaCode: seq<Atom> := [Optional(Open), AnyDigit, AnyDigit, AnyDigit, Optional(Close), Optional(Separator)]

  /** `([0-9]{3})[-.\s]?` */
  const Exchange: seq<Atom> := [AnyDigit, AnyDigit, AnyDigit, Optional(Separator)]

  /** `([0-9]{4})` */
  const LineNumber: seq<Atom> := [AnyDigit, AnyDigit, AnyDigit, AnyDigit]

  const LocalNumber: seq<Atom> := AreaCode + Exchange + LineNumber

  /** The phone pattern at `p`: the optional country-code group is tried first. */
  function PhoneAt(s: string, p: nat): (r: Option<nat>)
    requires p <= |s|
    ensures r.Some? ==> p <= r.value <= |s|
  {
    var withCode := MatchAtoms(s, p, CountryCode + LocalNumber);
    if withCode.Some? then withCode else MatchAtoms(s, p, LocalNumber)
  }

  function PhoneMatches(s: string): (ms: seq<Option<nat>>)
    ensures |ms| == |s| + 1
  {
    seq(|s| + 1, q requires 0 <= q <= |s| => PhoneAt(s, q))
  }

  /** The whole leftmost phone match, or `''`. */
  function PhoneIn(text: string): string {
    var ms := PhoneMatches(text);
    match Leftmost(ms, 0)
    case Some(p) =>
      assert ms[p] == PhoneAt(text, p);
      text[p..ms[p].value]
    case None => ""
  }

  /** The number of required digits among `atoms`. */
  function DigitAtoms(atoms: seq<Atom>): nat {
    if atoms == [] then 0
    else (if atoms[0].Optional? then 0 else 1) + DigitAtoms(atoms[1..])
  }

  lemma {:induction false} DigitAtomsConcat(a: seq<Atom>, b: seq<Atom>)
    ensures DigitAtoms(a + b) == DigitAtoms(a) + DigitAtoms(b)
    decreases |a|
  {
    if a == [] {
      assert a + b == b;
    } else {
      assert (a + b)[1..] == a[1..] + b;
      DigitAtomsConcat(a[1..], b);
    }
  }

  /** A match of atoms holds exactly one digit per required digit. */
  lemma {:induction false} MatchAtomsDigits(s: string, i: nat, atoms: seq<Atom>)
    requires i <= |s| && MatchAtoms(s, i, atoms).Some?
    ensures |Filter(s[i..MatchAtoms(s, i, atoms).value], IsDigit)| == DigitAtoms(atoms)
    decreases |atoms|
  {
    var e := MatchAtoms(s, i, atoms).value;
    if atoms == [] {
      assert s[i..e] == [];
    } else {
      var rest := atoms[1..];
      assert DigitAtoms(atoms) == (if atoms[0].Optional? then 0 else 1) + DigitAtoms(rest);
      match atoms[0]
      case AnyDigit =>
        MatchAtomsDigits(s, i + 1, rest);
        DigitsOfFirst(s, i, e);
      case DigitOne =>
        MatchAtomsDigits(s, i + 1, rest);
        DigitsOfFirst(s, i, e);
      case Optional(p) =>
        if i < |s| && InPunct(s[i], p) && MatchAtoms(s, i + 1, rest).Some? {
          MatchAtomsDigits(s, i + 1, rest);
          DigitsOfFirst(s, i, e);
          PunctNotDigit(s[i], p);
        } else {
          MatchAtomsDigits(s, i, rest);
        }
    }
  }

  /** The digits of `s[i..e]`: the first character's, then those of the rest. */
  lemma DigitsOfFirst(s: string, i: nat, e: nat)
    requires i < e <= |s|
    ensures |Filter(s[i..e], IsDigit)| == (if IsDigit(s[i]) then 1 else 0) + |Filter(s[i + 1..e], IsDigit)|
  {
    assert s[i..e] == [s[i]] + s[i + 1..e];
    FilterConcat([s[i]], s[i + 1..e], IsDigit);
  }

  lemma PunctNotDigit(c: char, p: Punct)
    requires InPunct(c, p)
    ensures !IsDigit(c)
  {
  }

  /** Ten required digits, eleven with the country code. */
  lemma PhoneDigitAtoms()
    ensures DigitAtoms(LocalNumber) == 10
    ensures DigitAtoms(CountryCode + LocalNumber) == 11
  {
    DigitAtomsConcat(AreaCode, Exchange);
    DigitAtomsConcat(AreaCode + Exchange, LineNumber);
    DigitAtomsConcat(CountryCode, LocalNumber);
  }

  /**
    A phone number found holds ten digits, or eleven with the country code,
    so it always passes `validate_phone`; it is a slice of the text.
  */
  lemma PhoneInShape(text: string)
    ensures var r := PhoneIn(text);
      r != "" ==> Contains(text, r) && 10 <= |Filter(r, IsDigit)| <= 11 && ValidatePhone(r)
  {
    var ms := PhoneMatches(text);
    match Leftmost(ms, 0)
    case Some(p) =>
      assert ms[p] == PhoneAt(text, p);
      var q := ms[p].value;
      assert OccursAt(text, text[p..q], p);
      PhoneDigitAtoms();
      if MatchAtoms(text, p, CountryCode + LocalNumber).Some? {
        MatchAtomsDigits(text, p, CountryCode + LocalNumber);
      } else {
        MatchAtomsDigits(text, p, LocalNumber);
      }
    case None =>
  }

  // ---------------------------------------------------------------------------
  // LinkedIn and GitHub profiles

  /** `[a-zA-Z0-9-]` */
  predicate HandleChar(c: char) { IsLetter(c) || IsDigit(c) || c == '-' }

  /** `w` occurs at `i` ignoring ASCII case; `w` is lowercase. */
  predicate PrefixCIAt(s: string, w: string, i: nat) {
    i + |w| <= |s| && Lower(s[i..i + |w|]) == w
  }

  /** A profile prefix `w` at `p` followed by a handle: the handle's span. */
  function ProfileAt(s: string, p: nat, w: string): (r: Option<(nat, nat)>)
    requires p <= |s|
    ensures r.Some? ==> p + |w| < r.value.1 <= |s| && r.value.0 == p + |w|
    ensures r.Some? ==> forall k :: r.value.0 <= k < r.value.1 ==> HandleChar(s[k])
  {
    if PrefixCIAt(s, w, p) then
      var e := RunWhile(s, p + |w|, HandleChar);
      if e > p + |w| then Some((p + |w|, e)) else None
    else None
  }

  const LinkedinIn: string := "linkedin.com/in/"
  const LinkedinPub: string := "linkedin.com/pub/"
  const GithubPrefix: string := "github.com/"

  /** `(?:linkedin\.com/in/|linkedin\.com/pub/)([a-zA-Z0-9-]+)` at `p`, ignoring case: the handle. */
  function LinkedinAt(s: string, p: nat): (r: Option<(nat, nat)>)
    requires p <= |s|
    ensures r.Some? ==> p < r.value.0 < r.value.1 <= |s|
    ensures r.Some? ==> forall k :: r.value.0 <= k < r.value.1 ==> HandleChar(s[k])
  {
    match ProfileAt(s, p, LinkedinIn)
    case Some(h) => Some(h)
    case None => ProfileAt(s, p, LinkedinPub)
  }

  function LinkedinMatches(s: string): (ms: seq<Option<(nat, nat)>>)
    ensures |ms| == |s| + 1
  {
    seq(|s| + 1, q requires 0 <= q <= |s| => LinkedinAt(s, q))
  }

  /** `f"linkedin.com/in/{handle}"` for the leftmost match, or `''`. */
  function LinkedinProfile(text: string): string {
    var ms := LinkedinMatches(text);
    match Leftmost(ms, 0)
    case Some(p) =>
      assert ms[p] == LinkedinAt(text, p);
      if ms[p].Some? then LinkedinIn + text[ms[p].value.0..ms[p].value.1] else ""
    case None => ""
  }

  function GithubMatches(s: string): (ms: seq<Option<(nat, nat)>>)
    ensures |ms| == |s| + 1
  {
    seq(|s| + 1, q requires 0 <= q <= |s| => ProfileAt(s, q, GithubPrefix))
  }

  /** `f"github.com/{handle}"` for the leftmost `(?:github\.com/)([a-zA-Z0-9-]+)`, ignoring case, or `''`. */
  function GithubProfile(text: string): string {
    var ms := GithubMatches(text);
    match Leftmost(ms, 0)
    case Some(p) =>
      assert ms[p] == ProfileAt(text, p, GithubPrefix);
      GithubPrefix + text[ms[p].value.0..ms[p].value.1]
    case None => ""
  }

  /** A non-empty handle is made of handle characters. */
  predicate IsHandle(h: string) {
    h != [] && forall k :: 0 <= k < |h| ==> HandleChar(h[k])
  }

  /**
    A LinkedIn profile found always reads `linkedin.com/in/` and a handle
    taken from the text, also for a `/pub/` address.
  */
  lemma LinkedinProfileShape(text: string)
    ensures var r := LinkedinProfile(text);
      r != "" ==> StartsWith(r, LinkedinIn) && IsHandle(r[|LinkedinIn|..]) && Contains(text, r[|LinkedinIn|..])
  {
    var ms := LinkedinMatches(text);
    match Leftmost(ms, 0)
    case Some(p) =>
      assert ms[p] == LinkedinAt(text, p);
      var (a, b) := ms[p].value;
      assert LinkedinProfile(text) == LinkedinIn + text[a..b];
      HandleSpanReported(text, a, b, LinkedinIn);
    case None =>
  }

  /** A span of handle characters, reported behind a prefix `w`, reads `w` and then a handle the text contains. */
  lemma HandleSpanReported(text: string, a: nat, b: nat, w: string)
    requires a < b <= |text|
    requires forall k :: a <= k < b ==> HandleChar(text[k])
    ensures var r := w + text[a..b];
      StartsWith(r, w) && IsHandle(r[|w|..]) && Contains(text, r[|w|..])
  {
    var h := text[a..b];
    var r := w + h;
    assert r[..|w|] == w;
    assert r[|w|..] == h;
    assert OccursAt(text, h, a);
    assert IsHandle(h);
  }

  /** A `/pub/` address at the start of the text is reported as the `/in/` form with the same handle. */
  lemma LinkedinPubRewritten(handle: string, rest: string)
    requires IsHandle(handle) && (rest == [] || !HandleChar(rest[0]))
    ensures LinkedinProfile(LinkedinPub + handle + rest) == LinkedinIn + handle
  {
    var s := LinkedinPub + handle + rest;
    var n := |LinkedinPub|;
    assert s[..n] == LinkedinPub;
    assert Lower(s[0..16])[13] == 'p' by {
      assert s[13] == 'p';
    }
    assert !PrefixCIAt(s, LinkedinIn, 0);
    assert PrefixCIAt(s, LinkedinPub, 0) by {
      assert s[0..n] == LinkedinPub;
      assert Lower(LinkedinPub) == LinkedinPub;
    }
    var e := RunWhile(s, n, HandleChar);
    assert forall k :: n <= k < n + |handle| ==> s[k] == handle[k - n];
    assert n + |handle| == |s| || !HandleChar(s[n + |handle|]) by {
      if n + |handle| < |s| {
        assert s[n + |handle|] == rest[0];
      }
    }
    assert e == n + |handle|;
    var ms := LinkedinMatches(s);
    assert ms[0] == LinkedinAt(s, 0) == Some((n, n + |handle|));
    assert s[n..n + |handle|] == handle;
  }

  /** A GitHub profile found always reads `github.com/` and a handle taken from the text. */
  lemma GithubProfileShape(text: string)
    ensures var r := GithubProfile(text);
      r != "" ==> StartsWith(r, GithubPrefix) && IsHandle(r[|GithubPrefix|..]) && Contains(text, r[|GithubPrefix|..])
  {
    var ms := GithubMatches(text);
    match Leftmost(ms, 0)
    case Some(p) =>
      assert ms[p] == ProfileAt(text, p, GithubPrefix);
      var (a, b) := ms[p].value;
      assert GithubProfile(text) == GithubPrefix + text[a..b];
      HandleSpanReported(text, a, b, GithubPrefix);
    case None =>
  }

  // ---------------------------------------------------------------------------
  // Website: (?:https?://)?(?:www\.)?([a-zA-Z0-9-]+\.[a-zA-Z]{2,})

  /** `s[w..t]` is a label of handle characters, a dot at `dot` and at least two letters. */
  predicate DomainSpan(s: string, w: nat, dot: nat, t: nat) {
    && w < dot && dot + 3 <= t <= |s| && s[dot] == '.'
    && (forall k :: w <= k < dot ==> HandleChar(s[k]))
    && (forall k :: dot < k < t ==> IsLetter(s[k]))
  }

  /** `([a-zA-Z0-9-]+\.[a-zA-Z]{2,})` at `w`: the group's start, its dot and its end, greedily. */
  function DomainAt(s: string, w: nat): (r: Option<(nat, nat, nat)>)
    requires w <= |s|
    ensures r.Some? ==> r.value.0 == w && DomainSpan(s, w, r.value.1, r.value.2)
  {
    var e := RunWhile(s, w, HandleChar);
    if w < e < |s| && s[e] == '.' then
      var t := RunWhile(s, e + 1, IsLetter);
      if t >= e + 3 then Some((w, e, t)) else None
    else None
  }

  /** The offsets after an optional literal `lit` at `i`, the longer first. */
  function OptionalLiteral(s: string, lit: string, i: nat): (r: seq<nat>)
    requires i <= |s|
    ensures forall k :: 0 <= k < |r| ==> i <= r[k] <= |s|
  {
    if OccursAt(s, lit, i) then [i + |lit|, i] else [i]
  }

  /** The offsets after `(?:https?://)?`, in the order the pattern tries them. */
  function SchemeEnds(s: string, p: nat): (r: seq<nat>)
    requires p <= |s|
    ensures forall k :: 0 <= k < |r| ==> p <= r[k] <= |s|
  {
    if OccursAt(s, "https://", p) then [p + 8, p]
    else OptionalLiteral(s, "http://", p)
  }

  /** The first domain match at one of the offsets `ws[k..]`. */
  function FirstDomain(s: string, ws: seq<nat>, k: nat): (r: Option<(nat, nat, nat)>)
    requires k <= |ws| && forall j :: 0 <= j < |ws| ==> ws[j] <= |s|
    ensures r.Some? ==> r.value.0 <= |s| && DomainAt(s, r.value.0) == Some(r.value)
    decreases |ws| - k
  {
    if k == |ws| then None
    else match DomainAt(s, ws[k])
      case Some(g) => Some(g)
      case None => FirstDomain(s, ws, k + 1)
  }

  /** The first domain match after one of the offsets `starts[k..]`, each followed by an optional `www.`. */
  function WebsiteFrom(s: string, starts: seq<nat>, k: nat): (r: Option<(nat, nat, nat)>)
    requires k <= |starts| && forall j :: 0 <= j < |starts| ==> starts[j] <= |s|
    ensures r.Some? ==> r.value.0 <= |s| && DomainAt(s, r.value.0) == Some(r.value)
    decreases |starts| - k
  {
    if k == |starts| then None
    else
      var ws := OptionalLiteral(s, "www.", starts[k]);
      match FirstDomain(s, ws, 0)
      case Some(g) => Some(g)
      case None => WebsiteFrom(s, starts, k + 1)
  }

  /** The website pattern at `p`: the span of its group and the group's dot. */
  function WebsiteAt(s: string, p: nat): (r: Option<(nat, nat, nat)>)
    requires p <= |s|
    ensures r.Some? ==> DomainSpan(s, r.value.0, r.value.1, r.value.2)
  {
    WebsiteFrom(s, SchemeEnds(s, p), 0)
  }

  function WebsiteMatches(s: string): (ms: seq<Option<(nat, nat, nat)>>)
    ensures |ms| == |s| + 1
  {
    seq(|s| + 1, q requires 0 <= q <= |s| => WebsiteAt(s, q))
  }

  /** The group of the leftmost website match, or `''`. */
  function WebsiteIn(text: string): string {
    var ms := WebsiteMatches(text);
    match Leftmost(ms, 0)
    case Some(p) =>
      assert ms[p] == WebsiteAt(text, p);
      text[ms[p].value.0..ms[p].value.2]
    case None => ""
  }

  /** A span of the text read on its own. */
  lemma DomainSpanSlice(s: string, w: nat, dot: nat, t: nat)
    requires DomainSpan(s, w, dot, t)
    ensures DomainSpan(s[w..t], 0, dot - w, t - w)
  {
    var r := s[w..t];
    forall k | 0 <= k < dot - w ensures HandleChar(r[k]) {
      assert r[k] == s[w + k];
    }
    forall k | dot - w < k < |r| ensures IsLetter(r[k]) {
      assert r[k] == s[w + k];
    }
  }

  /** A website found is a slice of the text: a label, a dot and at least two letters. */
  lemma WebsiteInShape(text: string)
    ensures var r := WebsiteIn(text);
      r != "" ==> Contains(text, r) && exists dot: nat :: DomainSpan(r, 0, dot, |r|)
  {
    var ms := WebsiteMatches(text);
    match Leftmost(ms, 0)
    case Some(p) =>
      assert ms[p] == WebsiteAt(text, p);
      var (a, dot, b) := ms[p].value;
      var r := text[a..b];
      assert WebsiteIn(text) == r;
      assert OccursAt(text, r, a);
      DomainSpanSlice(text, a, dot, b);
      assert DomainSpan(r, 0, dot - a, |r|);
    case None =>
  }

  /** The website pattern also matches inside an e-mail address: for `a.bc@d.ef` it reports `a.bc`. */
  lemma WebsiteInsideEmail()
    ensures WebsiteIn("a.bc@d.ef") == "a.bc"
  {
    var s := "a.bc@d.ef";
    assert s[0..8][0] != "https://"[0] && s[0..7][0] != "http://"[0] && s[0..4][0] != "www."[0];
    assert SchemeEnds(s, 0) == [0];
    assert OptionalLiteral(s, "www.", 0) == [0];
    assert RunWhile(s, 1, HandleChar) == 1;
    assert RunWhile(s, 0, HandleChar) == 1;
    assert RunWhile(s, 4, IsLetter) == 4;
    assert RunWhile(s, 3, IsLetter) == 4;
    assert RunWhile(s, 2, IsLetter) == 4;
    assert DomainAt(s, 0) == Some((0, 1, 4));
    var ms := WebsiteMatches(s);
    assert ms[0] == Some((0, 1, 4));
  }

  // ---------------------------------------------------------------------------
  // extract_contact_info

  /** The keys of the dictionary `extract_contact_info` returns. */
  datatype ContactField = Email | Phone | LinkedIn | GitHub | Website

  /** The key as the program spells it. */
  function KeyName(f: ContactField): string {
    match f
    case Email => "email"
    case Phone => "phone"
    case LinkedIn => "linkedin"
    case GitHub => "github"
    case Website => "website"
  }

  const ContactFields: set<ContactField> := {Email, Phone, LinkedIn, GitHub, Website}

  /**
    `extract_contact_info`: the five keys are always present, each holding
    what its pattern found or `''`. The e-mail is found by the pattern as
    written, whose top-level-domain class admits `|`; the phone number found
    passes its validator; the profiles are normalised to their canonical
    prefix.
  */
  function ContactInfo(text: string): (info: map<ContactField, string>)
    ensures info.Keys == ContactFields
  {
    map[Email := EmailInAsWritten(text), Phone := PhoneIn(text), LinkedIn := LinkedinProfile(text),
        GitHub := GithubProfile(text), Website := WebsiteIn(text)]
  }

  /**
    The e-mail reported is `''` or a slice of the text made of a local part,
    `@`, a domain, a dot and a top-level domain of letters and `|`; when it
    holds no `|` it passes `validate_email`.
  */
  lemma ContactEmailValid(text: string)
    ensures var e := ContactInfo(text)[Email];
      && Contains(text, e)
      && (e != "" ==> exists at: nat, dot: nat :: EmailParts(e, at, dot, true))
      && (e != "" && '|' !in e ==> ValidateEmail(e))
  {
    var e := EmailInAsWritten(text);
    EmailSearchShape(text, true);
    assert OccursAt(text, "", 0);
    if e != "" && '|' !in e {
      var at: nat, dot: nat :| EmailParts(e, at, dot, true);
      BarFreeParts(e, at, dot);
      PartsValid(e, at, dot);
    }
  }

  /** Without a `|`, the parts of the pattern as written are those of the intended one. */
  lemma BarFreeParts(r: string, at: nat, dot: nat)
    requires EmailParts(r, at, dot, true) && '|' !in r
    ensures EmailParts(r, at, dot, false)
  {
    forall k | dot < k < |r| ensures TldChar(r[k], false) {
      assert r[k] in r;
      assert TldChar(r[k], true);
    }
  }

  /** The phone number reported is a slice of the text that passes `validate_phone`, or `''`. */
  lemma ContactPhoneValid(text: string)
    ensures var p := ContactInfo(text)[Phone]; Contains(text, p) && (p == "" || ValidatePhone(p))
  {
    PhoneInShape(text);
    assert OccursAt(text, "", 0);
  }

  /** The profiles reported carry their canonical prefix, or are `''`. */
  lemma ContactProfilesCanonical(text: string)
    ensures var info := ContactInfo(text);
      && (info[LinkedIn] == "" || StartsWith(info[LinkedIn], LinkedinIn))
      && (info[GitHub] == "" || StartsWith(info[GitHub], GithubPrefix))
  {
    LinkedinProfileShape(text);
    GithubProfileShape(text);
  }

  /** The website reported is a slice of the text, or `''`. */
  lemma ContactWebsiteInText(text: string)
    ensures Contains(text, ContactInfo(text)[Website])
  {
    WebsiteInShape(text);
    assert OccursAt(text, "", 0);
  }
}
