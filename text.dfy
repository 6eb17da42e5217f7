/**
  String primitives shared by the resume parser, the text utilities and the
  response parsers: ASCII character classes, ASCII case mapping, Python's
  `strip`/`lstrip`, `split`/`join` on one separator, and substring tests.

  Characters are Unicode scalars (`char`), but every class below is the ASCII
  part of the class Python uses (`str.isspace`, `\s`, `\d`, `\w`, `lower()`).
*/
module Text {
  import opened Wrappers

  /** ASCII whitespace as seen by `str.isspace`, `str.strip()`, `str.split()` and regex `\s`. */
  predicate IsSpace(c: char) {
    c == ' ' || c == '\t' || c == '\n' || c == '\r' || c == '\U{0B}' || c == '\U{0C}'
    || ('\U{1C}' <= c <= '\U{1F}')
  }

  predicate IsDigit(c: char) { '0' <= c <= '9' }
  predicate IsUpper(c: char) { 'A' <= c <= 'Z' }
  predicate IsLower(c: char) { 'a' <= c <= 'z' }
  predicate IsLetter(c: char) { IsUpper(c) || IsLower(c) }

  /** Regex `\w` on ASCII: letters, digits and underscore. */
  predicate IsWordChar(c: char) { IsLetter(c) || IsDigit(c) || c == '_' }

  function LowerChar(c: char): (r: char)
    ensures !IsUpper(r)
    ensures IsLetter(r) <==> IsLetter(c)
    ensures IsDigit(r) <==> IsDigit(c)
    ensures IsSpace(r) <==> IsSpace(c)
    ensures !IsUpper(c) ==> r == c
  {
    if IsUpper(c) then (c as int + 32) as char else c
  }

  function UpperChar(c: char): (r: char)
    ensures !IsLower(r)
    ensures IsLetter(r) <==> IsLetter(c)
    ensures !IsLower(c) ==> r == c
  {
    if IsLower(c) then (c as int - 32) as char else c
  }

  /** Python's `str.lower()` restricted to ASCII: offsets are preserved. */
  function Lower(s: string): (r: string)
    ensures |r| == |s|
    ensures forall i :: 0 <= i < |s| ==> r[i] == LowerChar(s[i])
  {
    seq(|s|, i requires 0 <= i < |s| => LowerChar(s[i]))
  }

  /** Python's `str.upper()` restricted to ASCII. */
  function Upper(s: string): (r: string)
    ensures |r| == |s|
    ensures forall i :: 0 <= i < |s| ==> r[i] == UpperChar(s[i])
  {
    seq(|s|, i requires 0 <= i < |s| => UpperChar(s[i]))
  }

  predicate IsLowercase(s: string) {
    forall i :: 0 <= i < |s| ==> !IsUpper(s[i])
  }

  lemma LowerSlice(s: string, a: nat, b: nat)
    requires a <= b <= |s|
    ensures Lower(s[a..b]) == Lower(s)[a..b]
  {
  }

  // ---------------------------------------------------------------------------
  // Substrings

  /** `w` occurs in `s` starting at offset `i`. */
  predicate OccursAt(s: string, w: string, i: nat) {
    i + |w| <= |s| && s[i..i + |w|] == w
  }

  /** Python's `w in s`. */
  predicate Contains(s: string, w: string) {
    exists i :: 0 <= i <= |s| - |w| && OccursAt(s, w, i)
  }

  /** Python's `w.lower() in s.lower()`. */
  predicate ContainsCI(s: string, w: string) {
    Contains(Lower(s), Lower(w))
  }

  /** Some word of `ws` occurs in `s` (Python's `any(w in s for w in ws)`). */
  predicate ContainsAny(s: string, ws: seq<string>) {
    exists j :: 0 <= j < |ws| && Contains(s, ws[j])
  }

  predicate StartsWith(s: string, prefix: string) {
    |prefix| <= |s| && s[..|prefix|] == prefix
  }

  predicate EndsWith(s: string, suffix: string) {
    |suffix| <= |s| && s[|s| - |suffix|..] == suffix
  }

  lemma ContainsInSlice(s: string, a: nat, b: nat, w: string)
    requires a <= b <= |s| && Contains(s[a..b], w)
    ensures Contains(s, w)
  {
    var i :| 0 <= i <= (b - a) - |w| && OccursAt(s[a..b], w, i);
    forall k | 0 <= k < |w| ensures s[a + i + k] == w[k] {
      assert w[k] == s[a..b][i..i + |w|][k] == s[a..b][i + k];
    }
    assert s[a + i..a + i + |w|] == w;
    assert OccursAt(s, w, a + i);
  }

  lemma ContainsTrans(t: string, x: string, w: string)
    requires Contains(t, x) && Contains(x, w)
    ensures Contains(t, w)
  {
    var j :| 0 <= j <= |t| - |x| && OccursAt(t, x, j);
    assert t[j..j + |x|] == x;
    ContainsInSlice(t, j, j + |x|, w);
  }

  /** A substring of a run of field characters is itself such a run. */
  lemma FieldCharsInside(x: string, w: string)
    requires Contains(x, w)
    requires forall k :: 0 <= k < |x| ==> FieldChar(x[k])
    ensures forall k :: 0 <= k < |w| ==> FieldChar(w[k])
  {
    var a :| 0 <= a <= |x| - |w| && OccursAt(x, w, a);
    forall k | 0 <= k < |w| ensures FieldChar(w[k]) {
      assert w[k] == x[a..a + |w|][k];
    }
  }

  /** Containment survives lowercasing both sides. */
  lemma ContainsLower(s: string, w: string)
    requires Contains(s, w)
    ensures Contains(Lower(s), Lower(w))
  {
    var i :| 0 <= i <= |s| - |w| && OccursAt(s, w, i);
    LowerSlice(s, i, i + |w|);
    assert OccursAt(Lower(s), Lower(w), i);
  }

  /** A character absent from a text is absent from its substrings. */
  lemma CharNotInPart(s: string, w: string, c: char)
    requires Contains(s, w) && c !in s
    ensures c !in w
  {
    var i :| 0 <= i <= |s| - |w| && OccursAt(s, w, i);
    forall k | 0 <= k < |w| ensures w[k] != c {
      assert w[k] == s[i + k];
    }
  }

  lemma ContainsWhole(s: string)
    ensures Contains(s, s)
  {
    assert OccursAt(s, s, 0);
  }

  lemma OccursInConcat(a: string, w: string, b: string)
    ensures Contains(a + w + b, w)
  {
    assert (a + w + b)[|a|..|a| + |w|] == w;
    assert OccursAt(a + w + b, w, |a|);
  }

  // ---------------------------------------------------------------------------
  // Sequence steps used by the loops

  lemma PrefixSnoc<T>(a: seq<T>, b: seq<T>, j: nat)
    requires j < |b|
    ensures a + b[..j + 1] == (a + b[..j]) + [b[j]]
  {
    assert b[..j + 1] == b[..j] + [b[j]];
  }

  lemma ConcatAssoc<T>(a: seq<T>, b: seq<T>, c: seq<T>)
    ensures (a + b) + c == a + (b + c)
  {
  }

  lemma InitLast<T>(s: seq<T>)
    requires s != []
    ensures s[..|s| - 1] + [s[|s| - 1]] == s
  {
  }

  lemma PrefixStep<T>(s: seq<T>, i: nat)
    requires i < |s|
    ensures s[..i + 1][..i] == s[..i]
    ensures s[..i + 1] == s[..i] + [s[i]]
  {
  }

  lemma SnocPrefix<T>(a: seq<T>, x: T)
    ensures (a + [x])[..|a|] == a
  {
  }

  lemma PrefixNone<T>(a: seq<T>, b: seq<T>)
    ensures a + b[..0] == a
  {
  }

  lemma PrefixWhole<T>(b: seq<T>)
    ensures b[..|b|] == b
  {
  }

  // ---------------------------------------------------------------------------
  // Scanning

  /**
    The least offset `q >= from` at which `ms[q]` holds a match: `re.search`
    given the outcome of the pattern at every offset.
  */
  function Leftmost<T>(ms: seq<Option<T>>, from: nat): (r: Option<nat>)
    requires from <= |ms|
    ensures r.Some? ==> from <= r.value < |ms| && ms[r.value].Some?
    ensures r.Some? ==> forall q :: from <= q < r.value ==> ms[q].None?
    ensures r.None? ==> forall q :: from <= q < |ms| ==> ms[q].None?
    decreases |ms| - from
  {
    if from == |ms| then None
    else if ms[from].Some? then Some(from)
    else Leftmost(ms, from + 1)
  }

  /** The end of the whitespace run starting at `i` (the greedy `\s*`). */
  function SkipSpaces(s: string, i: nat): (r: nat)
    requires i <= |s|
    ensures i <= r <= |s|
    ensures r == |s| || !IsSpace(s[r])
    ensures forall k :: i <= k < r ==> IsSpace(s[k])
    decreases |s| - i
  {
    if i < |s| && IsSpace(s[i]) then SkipSpaces(s, i + 1) else i
  }

  /** The end of the run of characters not in `stops` starting at `i` (the greedy `[^...]*`). */
  function RunEnd(s: string, i: nat, stops: seq<char>): (r: nat)
    requires i <= |s|
    ensures i <= r <= |s|
    ensures r == |s| || s[r] in stops
    ensures forall k :: i <= k < r ==> s[k] !in stops
    decreases |s| - i
  {
    if i < |s| && s[i] !in stops then RunEnd(s, i + 1, stops) else i
  }

  /** The end of the run of ASCII letters starting at `i`. */
  function LetterRunEnd(s: string, i: nat): (r: nat)
    requires i <= |s|
    ensures i <= r <= |s|
    ensures r == |s| || !IsLetter(s[r])
    ensures forall k :: i <= k < r ==> IsLetter(s[k])
    decreases |s| - i
  {
    if i < |s| && IsLetter(s[i]) then LetterRunEnd(s, i + 1) else i
  }

  /** The largest `k` in `[lo, hi)` with `s[k] == c`. */
  function LastIndexOfChar(s: string, c: char, lo: nat, hi: nat): (r: Option<nat>)
    requires lo <= hi <= |s|
    ensures r.Some? ==> lo <= r.value < hi && s[r.value] == c
    ensures r.Some? ==> forall k :: r.value < k < hi ==> s[k] != c
    ensures r.None? ==> forall k :: lo <= k < hi ==> s[k] != c
    decreases hi - lo
  {
    if lo == hi then None
    else if s[hi - 1] == c then Some(hi - 1)
    else LastIndexOfChar(s, c, lo, hi - 1)
  }

  /** Four ASCII digits at offset `i` (regex `\d{4}`). */
  predicate FourDigitsAt(s: string, i: nat) {
    i + 4 <= |s| && IsDigit(s[i]) && IsDigit(s[i + 1]) && IsDigit(s[i + 2]) && IsDigit(s[i + 3])
  }

  predicate AllDigits(s: string) {
    forall i :: 0 <= i < |s| ==> IsDigit(s[i])
  }

  /**
    The end of a match of regex `\n\s*\n` at offset `p`: the greedy `\s*`
    gives back characters until a newline follows, so the match ends just
    after the last newline of the whitespace run.
  */
  function BlankLineEnd(s: string, p: nat): (r: Option<nat>)
    requires p <= |s|
    ensures r.Some? ==> p < |s| && s[p] == '\n' && p + 2 <= r.value <= |s| && s[r.value - 1] == '\n'
    ensures r.Some? ==> forall k :: p <= k < r.value ==> IsSpace(s[k])
    ensures r.None? && p < |s| && s[p] == '\n' ==>
      forall k :: p < k < SkipSpaces(s, p + 1) ==> s[k] != '\n'
  {
    if p < |s| && s[p] == '\n' then
      match LastIndexOfChar(s, '\n', p + 1, SkipSpaces(s, p + 1))
      case Some(k) => Some(k + 1)
      case None => None
    else None
  }

  /** The largest `k` in `[lo, hi)` with `s[k] != '\n'`. */
  function LastNonNewline(s: string, lo: nat, hi: nat): (r: Option<nat>)
    requires lo <= hi <= |s|
    ensures r.Some? ==> lo <= r.value < hi && s[r.value] != '\n'
    ensures r.Some? ==> forall k :: r.value < k < hi ==> s[k] == '\n'
    ensures r.None? ==> forall k :: lo <= k < hi ==> s[k] == '\n'
    decreases hi - lo
  {
    if lo == hi then None
    else if s[hi - 1] != '\n' then Some(hi - 1)
    else LastNonNewline(s, lo, hi - 1)
  }

  /** A character of the class `[^,\n]`. */
  predicate FieldChar(c: char) { c != ',' && c != '\n' }

  /**
    The group of regex `\s{min,}([^,\n]+)` matched at `i`, as `[start, end)`.
    The greedy whitespace run is tried first; when no field character follows
    it, the run gives back characters until the group can start on a
    whitespace character that is not a newline, which then forms the group.
  */
  function FieldAfter(s: string, i: nat, min: nat): (r: Option<(nat, nat)>)
    requires i <= |s|
    ensures r.Some? ==> i + min <= r.value.0 < r.value.1 <= |s|
    ensures r.Some? ==> forall k :: i <= k < r.value.0 ==> IsSpace(s[k])
    ensures r.Some? ==> forall k :: r.value.0 <= k < r.value.1 ==> FieldChar(s[k])
    ensures r.Some? ==> r.value.1 == |s| || !FieldChar(s[r.value.1])
    ensures r.None? ==> var q := SkipSpaces(s, i); q == |s| || !FieldChar(s[q]) || q < i + min
  {
    var q := SkipSpaces(s, i);
    if q < i + min then None
    else if q < |s| && FieldChar(s[q]) then Some((q, RunEnd(s, q, ",\n")))
    else
      match LastNonNewline(s, i + min, q)
      case Some(y) => Some((y, y + 1))
      case None => None
  }

  // ---------------------------------------------------------------------------
  // strip / lstrip

  /** Python's `s.lstrip()`. */
  function TrimStart(s: string): (r: string)
    ensures |r| <= |s| && r == s[|s| - |r|..]
    ensures r == [] || !IsSpace(r[0])
    ensures forall i :: 0 <= i < |s| - |r| ==> IsSpace(s[i])
  {
    if s != [] && IsSpace(s[0]) then TrimStart(s[1..]) else s
  }

  /** Python's `s.rstrip()`. */
  function TrimEnd(s: string): (r: string)
    ensures |r| <= |s| && r == s[..|r|]
    ensures r == [] || !IsSpace(r[|r| - 1])
    ensures forall i :: |r| <= i < |s| ==> IsSpace(s[i])
  {
    if s != [] && IsSpace(s[|s| - 1]) then TrimEnd(s[..|s| - 1]) else s
  }

  /** Every character is whitespace (Python's `not s.strip()`). */
  predicate AllSpace(s: string) {
    forall i :: 0 <= i < |s| ==> IsSpace(s[i])
  }

  /** Neither end is whitespace: what `strip()` leaves. */
  predicate Stripped(r: string) {
    r == [] || (!IsSpace(r[0]) && !IsSpace(r[|r| - 1]))
  }

  /** Python's `s.strip()`: the longest slice of `s` that neither starts nor ends with whitespace. */
  function Strip(s: string): (r: string)
    ensures |r| <= |s|
    ensures r == [] || (!IsSpace(r[0]) && !IsSpace(r[|r| - 1]))
    ensures AllSpace(s) <==> r == []
  {
    var t := TrimStart(s);
    var r := TrimEnd(t);
    if r == [] then
      assert t == [];
      r
    else
      assert !IsSpace(s[|s| - |t|]);
      r
  }

  /** The stripped text is a slice of the original. */
  lemma StripContained(s: string)
    ensures Contains(s, Strip(s))
  {
    var t := TrimStart(s);
    var r := TrimEnd(t);
    assert r == s[|s| - |t|..|s| - |t| + |r|];
    assert OccursAt(s, r, |s| - |t|);
  }

  /** The stripped text is the slice between a whitespace prefix and a whitespace suffix. */
  lemma StripSlice(s: string) returns (a: nat, b: nat)
    ensures a <= b <= |s| && Strip(s) == s[a..b]
    ensures forall k :: 0 <= k < a ==> IsSpace(s[k])
    ensures forall k :: b <= k < |s| ==> IsSpace(s[k])
  {
    var t := TrimStart(s);
    var r := TrimEnd(t);
    a, b := |s| - |t|, |s| - |t| + |r|;
    assert Strip(s) == r;
    assert t == s[a..];
    assert r == t[..|r|];
    assert s[a..][..|r|] == s[a..b];
    forall k | b <= k < |s| ensures IsSpace(s[k]) {
      assert s[k] == t[k - a];
    }
  }

  /** A text that does not start with whitespace strips to a non-empty prefix of itself, followed by whitespace or the end. */
  lemma StripOfLeading(s: string)
    requires s != [] && !IsSpace(s[0])
    ensures Strip(s) != [] && StartsWith(s, Strip(s))
    ensures |Strip(s)| == |s| || IsSpace(s[|Strip(s)|])
  {
    assert TrimStart(s) == s;
    assert !AllSpace(s);
  }

  lemma StripOfStripped(s: string)
    requires Stripped(s)
    ensures Strip(s) == s
  {
  }

  lemma StripIdempotent(s: string)
    ensures Strip(Strip(s)) == Strip(s)
  {
    StripOfStripped(Strip(s));
  }

  /** Python's `s.lstrip(chars)`, the set of characters given as a predicate. */
  function LStripWhile(s: string, strip: char -> bool): (r: string)
    ensures |r| <= |s| && r == s[|s| - |r|..]
    ensures r == [] || !strip(r[0])
    ensures forall i :: 0 <= i < |s| - |r| ==> strip(s[i])
  {
    if s != [] && strip(s[0]) then LStripWhile(s[1..], strip) else s
  }

  /** What is left after stripping is a slice of the text. */
  lemma SuffixContained(s: string, r: string)
    requires |r| <= |s| && r == s[|s| - |r|..]
    ensures Contains(s, r)
    ensures forall c :: c in r ==> c in s
  {
    assert OccursAt(s, r, |s| - |r|);
    forall c | c in r ensures c in s {
      var k :| 0 <= k < |r| && r[k] == c;
      assert s[|s| - |r| + k] == c;
    }
  }

  // ---------------------------------------------------------------------------
  // split / join on one separator character

  /** Python's `s.split(sep)` for a one-character separator: never empty, and `"".split(sep) == [""]`. */
  function Split(s: string, sep: char): (parts: seq<string>)
    ensures |parts| >= 1
    ensures forall i :: 0 <= i < |parts| ==> sep !in parts[i]
    decreases |s|
  {
    if s == [] then [""]
    else
      var rest := Split(s[1..], sep);
      if s[0] == sep then [""] + rest else [[s[0]] + rest[0]] + rest[1..]
  }

  /** Python's `sep.join(parts)`. */
  function Join(parts: seq<string>, sep: char): string
  {
    if parts == [] then ""
    else if |parts| == 1 then parts[0]
    else parts[0] + [sep] + Join(parts[1..], sep)
  }

  lemma {:induction false} JoinSplit(s: string, sep: char)
    ensures Join(Split(s, sep), sep) == s
    decreases |s|
  {
    if s != [] {
      JoinSplit(s[1..], sep);
      var rest := Split(s[1..], sep);
      if s[0] == sep {
        assert Split(s, sep) == [""] + rest;
        assert ([""] + rest)[1..] == rest;
      } else {
        var parts := [[s[0]] + rest[0]] + rest[1..];
        assert Split(s, sep) == parts;
        if |rest| == 1 {
          assert parts == [[s[0]] + rest[0]];
        } else {
          assert parts[1..] == rest[1..];
          assert Join(rest, sep) == rest[0] + [sep] + Join(rest[1..], sep);
        }
      }
    }
  }

  lemma {:induction false} SplitJoin(parts: seq<string>, sep: char)
    requires |parts| >= 1
    requires forall i :: 0 <= i < |parts| ==> sep !in parts[i]
    ensures Split(Join(parts, sep), sep) == parts
    decreases |parts|, |parts[0]|
  {
    if parts[0] == [] {
      if |parts| > 1 {
        var tail := Join(parts[1..], sep);
        assert Join(parts, sep) == [sep] + tail;
        assert ([sep] + tail)[1..] == tail;
        SplitJoin(parts[1..], sep);
        assert parts == [""] + parts[1..];
      }
    } else {
      var c := parts[0][0];
      var shorter := [parts[0][1..]] + parts[1..];
      assert forall i :: 0 <= i < |shorter| ==> sep !in shorter[i] by {
        forall i | 0 <= i < |shorter| ensures sep !in shorter[i] {
          if i == 0 { assert forall x :: x in parts[0][1..] ==> x in parts[0]; }
          else { assert shorter[i] == parts[i]; }
        }
      }
      SplitJoin(shorter, sep);
      var j := Join(parts, sep);
      if |parts| == 1 {
        assert j == parts[0];
        assert j[1..] == parts[0][1..];
        assert Join(shorter, sep) == parts[0][1..];
      } else {
        assert j == parts[0] + [sep] + Join(parts[1..], sep);
        assert Join(shorter, sep) == parts[0][1..] + [sep] + Join(parts[1..], sep);
        assert j[1..] == Join(shorter, sep);
      }
      assert j[0] == c && c != sep;
      var rest := Split(j[1..], sep);
      assert rest == shorter;
      assert Split(j, sep) == [[c] + rest[0]] + rest[1..];
      assert [c] + parts[0][1..] == parts[0];
      assert rest[1..] == parts[1..];
    }
  }

  /** Every part occurs in the joined text. */
  lemma {:induction false} JoinHasPart(parts: seq<string>, sep: char, i: nat)
    requires i < |parts|
    ensures Contains(Join(parts, sep), parts[i])
    decreases i
  {
    if |parts| == 1 {
      ContainsWhole(parts[0]);
    } else {
      var tail := Join(parts[1..], sep);
      assert Join(parts, sep) == parts[0] + [sep] + tail;
      if i == 0 {
        OccursInConcat([], parts[0], [sep] + tail);
        assert [] + parts[0] + ([sep] + tail) == Join(parts, sep);
      } else {
        JoinHasPart(parts[1..], sep, i - 1);
        OccursInConcat(parts[0] + [sep], tail, []);
        assert parts[0] + [sep] + tail + [] == Join(parts, sep);
        ContainsTrans(Join(parts, sep), tail, parts[i]);
      }
    }
  }

  /** Every piece of a split occurs in the text. */
  lemma SplitPartsInText(s: string, sep: char, i: nat)
    requires i < |Split(s, sep)|
    ensures Contains(s, Split(s, sep)[i])
  {
    JoinSplit(s, sep);
    JoinHasPart(Split(s, sep), sep, i);
  }

  /** Python's `s[i:].split()` with no argument: the maximal runs of non-whitespace, in order. */
  function WordsFrom(s: string, i: nat): (ws: seq<string>)
    requires i <= |s|
    ensures forall j :: 0 <= j < |ws| ==> ws[j] != [] && NoSpace(ws[j])
    ensures AllSpace(s[i..]) <==> ws == []
    decreases |s| - i
  {
    var a := SkipSpaces(s, i);
    if a == |s| then
      assert forall k :: 0 <= k < |s[i..]| ==> s[i..][k] == s[i + k];
      []
    else
      var e := FirstSpace(s, a);
      assert !IsSpace(s[i..][a - i]);
      [s[a..e]] + WordsFrom(s, e)
  }

  /** Python's `s.split()`. */
  function Words(s: string): seq<string> {
    WordsFrom(s, 0)
  }

  predicate NoSpace(w: string) {
    forall k :: 0 <= k < |w| ==> !IsSpace(w[k])
  }

  /** The first whitespace offset at or after `i`, or `|s|`. */
  function FirstSpace(s: string, i: nat): (r: nat)
    requires i <= |s|
    ensures i <= r <= |s|
    ensures r == |s| || IsSpace(s[r])
    ensures forall k :: i <= k < r ==> !IsSpace(s[k])
    decreases |s| - i
  {
    if i < |s| && !IsSpace(s[i]) then FirstSpace(s, i + 1) else i
  }

  /** The characters of `s` that satisfy `p`, in order. */
  function Filter(s: string, p: char -> bool): (r: string)
    ensures |r| <= |s|
    ensures forall i :: 0 <= i < |r| ==> p(r[i])
    ensures forall c :: c in r <==> c in s && p(c)
  {
    if s == [] then "" else (if p(s[0]) then [s[0]] else "") + Filter(s[1..], p)
  }

  /** `Filter` on a character put in front of a text. */
  lemma FilterCons(c: char, r: string, p: char -> bool)
    ensures Filter([c] + r, p) == (if p(c) then [c] else "") + Filter(r, p)
  {
    assert ([c] + r)[1..] == r;
  }

  lemma {:induction false} FilterConcat(a: string, b: string, p: char -> bool)
    ensures Filter(a + b, p) == Filter(a, p) + Filter(b, p)
  {
    if a != [] {
      assert (a + b)[1..] == a[1..] + b;
      FilterConcat(a[1..], b, p);
    } else {
      assert a + b == b;
    }
  }

  /** Nothing is kept when no character satisfies `p`. */
  lemma {:induction false} FilterNone(s: string, p: char -> bool)
    requires forall k :: 0 <= k < |s| ==> !p(s[k])
    ensures Filter(s, p) == ""
  {
    if s != [] {
      FilterNone(s[1..], p);
    }
  }

  /** Filtering by a weaker test first changes nothing for a stronger one. */
  lemma {:induction false} FilterWeaker(s: string, p: char -> bool, q: char -> bool)
    requires forall c :: q(c) ==> p(c)
    ensures Filter(Filter(s, p), q) == Filter(s, q)
  {
    if s != [] {
      FilterWeaker(s[1..], p, q);
      FilterConcat(if p(s[0]) then [s[0]] else "", Filter(s[1..], p), q);
    }
  }

  lemma {:induction false} FilterIdempotent(s: string, p: char -> bool)
    ensures Filter(Filter(s, p), p) == Filter(s, p)
  {
    if s != [] {
      FilterIdempotent(s[1..], p);
      FilterConcat(if p(s[0]) then [s[0]] else "", Filter(s[1..], p), p);
    }
  }
}
