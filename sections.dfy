/**
  The section segmenter of `src/resume_parser.py`: every heading keyword of the
  ten kinds is searched in the lowercased text (`re.finditer`), the
  `(offset, kind)` pairs are sorted by offset with a stable sort, and each kind
  receives the stripped slice between its match and the next match. A kind that
  matches several times keeps the slice of its last match, because the
  dictionary assignment overwrites.

  Also here: `_find_section_content`, which locates one section's body by the
  pattern `{keyword}\s*:?\s*\n(.*?)(?=\n[A-Z][a-z]+\s*:|\Z)`.
*/
module SectionSegmenter {
  import opened Wrappers
  import opened Text
  import opened Models

  predicate NonEmptyWords(kws: seq<string>) {
    forall j :: 0 <= j < |kws| ==> |kws[j]| > 0
  }

  // ---------------------------------------------------------------------------
  // The heading pattern `(?:kw0|kw1|...)\s*:?` and its finditer scan

  /** The first alternative of `kws`, from the `j`-th on, that occurs at `p`: the order regex alternation tries them in. */
  function AlternativeAt(t: string, kws: seq<string>, p: nat, j: nat): (r: Option<nat>)
    requires j <= |kws|
    ensures r.Some? ==> j <= r.value < |kws| && OccursAt(t, kws[r.value], p)
    ensures r.None? ==> forall i :: j <= i < |kws| ==> !OccursAt(t, kws[i], p)
    decreases |kws| - j
  {
    if j == |kws| then None
    else if OccursAt(t, kws[j], p) then Some(j)
    else AlternativeAt(t, kws, p, j + 1)
  }

  /** Some heading keyword of `kws` occurs at offset `p`. */
  predicate HeadingAt(t: string, kws: seq<string>, p: nat) {
    exists j :: 0 <= j < |kws| && OccursAt(t, kws[j], p)
  }

  /** A kind's heading pattern matches somewhere in the (lowercased) text. */
  predicate KindOccurs(lower: string, k: SectionKind) {
    exists p :: 0 <= p < |lower| && HeadingAt(lower, Keywords(k), p)
  }

  /** The end of the match `kws[j]\s*:?` that starts at `p`. */
  function HeadingEnd(t: string, kws: seq<string>, p: nat, j: nat): (e: nat)
    requires j < |kws| && |kws[j]| > 0 && OccursAt(t, kws[j], p)
    ensures p < e <= |t|
  {
    var b := SkipSpaces(t, p + |kws[j]|);
    if b < |t| && t[b] == ':' then b + 1 else b
  }

  /** The leftmost offset at or after `from` where the heading pattern matches. */
  function NextHeading(t: string, kws: seq<string>, from: nat): (r: Option<nat>)
    requires NonEmptyWords(kws)
    ensures r.Some? ==> from <= r.value < |t| && HeadingAt(t, kws, r.value)
    ensures r.Some? ==> forall p :: from <= p < r.value ==> !HeadingAt(t, kws, p)
    ensures r.None? ==> forall p :: from <= p ==> !HeadingAt(t, kws, p)
    decreases |t| - from
  {
    if from >= |t| then None
    else if AlternativeAt(t, kws, from, 0).Some? then Some(from)
    else NextHeading(t, kws, from + 1)
  }

  /**
    The start offsets `re.finditer` reports for the heading pattern: leftmost
    matches, each search resuming where the previous match ended.
  */
  function HeadingStarts(t: string, kws: seq<string>, from: nat): (r: seq<nat>)
    requires NonEmptyWords(kws)
    ensures forall i :: 0 <= i < |r| ==> from <= r[i] < |t| && HeadingAt(t, kws, r[i])
    ensures forall i, j :: 0 <= i < j < |r| ==> r[i] < r[j]
    ensures r == [] <==> forall p :: from <= p ==> !HeadingAt(t, kws, p)
    ensures r != [] ==> forall p :: from <= p < r[0] ==> !HeadingAt(t, kws, p)
    decreases |t| - from
  {
    match NextHeading(t, kws, from)
    case None => []
    case Some(p) =>
      var j := AlternativeAt(t, kws, p, 0).value;
      [p] + HeadingStarts(t, kws, HeadingEnd(t, kws, p, j))
  }

  // ---------------------------------------------------------------------------
  // Collected matches

  /** One entry of `section_positions`: `(match.start(), section_name)`. */
  datatype Match = Match(offset: nat, kind: SectionKind)

  /** Pairs each start offset with the kind: the tuples `(match.start(), section_name)`. */
  function Tag(starts: seq<nat>, k: SectionKind): (ms: seq<Match>)
    ensures |ms| == |starts|
    ensures forall i :: 0 <= i < |ms| ==> ms[i] == Match(starts[i], k)
  {
    if starts == [] then [] else Tag(starts[..|starts| - 1], k) + [Match(starts[|starts| - 1], k)]
  }

  /** Start offsets that strictly increase, as `re.finditer` reports them. */
  predicate Increasing(starts: seq<nat>) {
    forall i, j :: 0 <= i < j < |starts| ==> starts[i] < starts[j]
  }

  /** The start offsets of every kind's pattern, in taxonomy order. */
  function StartTable(lower: string): (table: seq<seq<nat>>)
    ensures |table| == |Kinds|
  {
    seq(|Kinds|, i requires 0 <= i < |Kinds| => HeadingStarts(lower, Keywords(Kinds[i]), 0))
  }

  /** Each row of the table is a finditer result: increasing offsets into the text, empty exactly when the pattern does not occur. */
  lemma StartTableRow(lower: string, i: nat)
    requires i < |Kinds|
    ensures StartTable(lower)[i] == HeadingStarts(lower, Keywords(Kinds[i]), 0)
    ensures Increasing(StartTable(lower)[i])
    ensures forall j :: 0 <= j < |StartTable(lower)[i]| ==> StartTable(lower)[i][j] < |lower|
    ensures StartTable(lower)[i] == [] <==> !KindOccurs(lower, Kinds[i])
  {
  }

  /** Every match of a kind precedes every match of a later kind; within a kind, offsets increase. */
  predicate KindMajor(ms: seq<Match>) {
    forall i, j :: 0 <= i < j < |ms| ==>
      KindIndex(ms[i].kind) < KindIndex(ms[j].kind)
      || (ms[i].kind == ms[j].kind && ms[i].offset < ms[j].offset)
  }

  /** Some match in `ms` is of kind `k`. */
  predicate HasKind(ms: seq<Match>, k: SectionKind) {
    exists i :: 0 <= i < |ms| && ms[i].kind == k
  }

  lemma HasKindConcat(a: seq<Match>, b: seq<Match>, k: SectionKind)
    ensures HasKind(a + b, k) <==> HasKind(a, k) || HasKind(b, k)
  {
    if HasKind(a + b, k) {
      var i :| 0 <= i < |a + b| && (a + b)[i].kind == k;
      if i >= |a| { assert b[i - |a|].kind == k; }
    }
    if HasKind(b, k) {
      var i :| 0 <= i < |b| && b[i].kind == k;
      assert (a + b)[|a| + i] == b[i];
    }
    if HasKind(a, k) {
      var i :| 0 <= i < |a| && a[i].kind == k;
      assert (a + b)[i] == a[i];
    }
  }

  lemma KindMajorConcat(a: seq<Match>, b: seq<Match>, n: nat)
    requires KindMajor(a) && forall i :: 0 <= i < |a| ==> KindIndex(a[i].kind) < n
    requires forall i :: 0 <= i < |b| ==> KindIndex(b[i].kind) == n
    requires forall i, j :: 0 <= i < j < |b| ==> b[i].offset < b[j].offset
    ensures KindMajor(a + b)
  {
    var ms := a + b;
    forall i, j | 0 <= i < j < |ms|
      ensures KindIndex(ms[i].kind) < KindIndex(ms[j].kind)
              || (ms[i].kind == ms[j].kind && ms[i].offset < ms[j].offset)
    {
      if j < |a| {
        assert ms[i] == a[i] && ms[j] == a[j];
      } else if i < |a| {
        assert ms[i] == a[i] && ms[j] == b[j - |a|];
      } else {
        assert ms[i] == b[i - |a|] && ms[j] == b[j - |a|];
        assert KindIndex(ms[i].kind) == KindIndex(ms[j].kind);
      }
    }
  }

  /** A tagged list has kind `k` exactly when it is tagged with `k` and not empty. */
  lemma TagKinds(starts: seq<nat>, tag: SectionKind, k: SectionKind)
    ensures HasKind(Tag(starts, tag), k) <==> (k == tag && starts != [])
  {
    if k == tag && starts != [] {
      assert Tag(starts, tag)[0].kind == k;
    }
  }

  /** `section_positions` after the first `n` kinds of the taxonomy have been scanned. */
  function MatchesUpTo(table: seq<seq<nat>>, n: nat): (ms: seq<Match>)
    requires n <= |table| <= |Kinds|
    ensures forall i :: 0 <= i < |ms| ==> KindIndex(ms[i].kind) < n
  {
    if n == 0 then []
    else
      KindsIndexed(n - 1);
      MatchesUpTo(table, n - 1) + Tag(table[n - 1], Kinds[n - 1])
  }

  /** Offsets below a bound in every row stay below it in the scan. */
  lemma {:induction false} MatchesUpToWithin(table: seq<seq<nat>>, n: nat, bound: nat)
    requires n <= |table| <= |Kinds|
    requires forall i, j :: 0 <= i < |table| && 0 <= j < |table[i]| ==> table[i][j] < bound
    ensures OffsetsWithin(MatchesUpTo(table, n), bound)
  {
    if n > 0 {
      MatchesUpToWithin(table, n - 1, bound);
      var a: seq<Match>, b: seq<Match> := MatchesUpTo(table, n - 1), Tag(table[n - 1], Kinds[n - 1]);
      forall j | 0 <= j < |a + b| ensures (a + b)[j].offset < bound {
        if j >= |a| { assert (a + b)[j] == b[j - |a|]; }
      }
    }
  }

  /** The scan appends kind after kind, so the matches are kind-major. */
  lemma {:induction false} MatchesUpToKindMajor(table: seq<seq<nat>>, n: nat)
    requires n <= |table| <= |Kinds|
    requires forall i :: 0 <= i < |table| ==> Increasing(table[i])
    ensures KindMajor(MatchesUpTo(table, n))
  {
    if n > 0 {
      MatchesUpToKindMajor(table, n - 1);
      KindsIndexed(n - 1);
      assert Increasing(table[n - 1]);
      KindMajorConcat(MatchesUpTo(table, n - 1), Tag(table[n - 1], Kinds[n - 1]), n - 1);
    }
  }

  /** A kind has a match after scanning `n` kinds exactly when it is one of them and its row is not empty. */
  lemma {:induction false} MatchesUpToKinds(table: seq<seq<nat>>, n: nat, k: SectionKind)
    requires n <= |table| <= |Kinds|
    ensures HasKind(MatchesUpTo(table, n), k) <==> (KindIndex(k) < n && table[KindIndex(k)] != [])
  {
    if n > 0 {
      MatchesUpToKinds(table, n - 1, k);
      HasKindConcat(MatchesUpTo(table, n - 1), Tag(table[n - 1], Kinds[n - 1]), k);
      TagKinds(table[n - 1], Kinds[n - 1], k);
      KindsIndexed(n - 1);
      KindListed(k);
    }
  }

  /** All of `section_positions` before sorting. */
  function AllMatches(lower: string): (ms: seq<Match>)
  {
    MatchesUpTo(StartTable(lower), |Kinds|)
  }

  /** The matches are kind-major and lie inside the text. */
  lemma AllMatchesShape(lower: string)
    ensures KindMajor(AllMatches(lower)) && OffsetsWithin(AllMatches(lower), |lower|)
  {
    var table := StartTable(lower);
    forall i | 0 <= i < |table| ensures Increasing(table[i]) && forall j :: 0 <= j < |table[i]| ==> table[i][j] < |lower| {
      StartTableRow(lower, i);
    }
    MatchesUpToKindMajor(table, |Kinds|);
    MatchesUpToWithin(table, |Kinds|, |lower|);
  }

  /** Every kind of the taxonomy has a match exactly when its pattern occurs. */
  lemma AllMatchesKinds(lower: string, k: SectionKind)
    ensures HasKind(AllMatches(lower), k) <==> KindOccurs(lower, k)
  {
    MatchesUpToKinds(StartTable(lower), |Kinds|, k);
    StartTableRow(lower, KindIndex(k));
    KindListed(k);
  }

  // ---------------------------------------------------------------------------
  // The stable sort by offset

  /** The order `section_positions` ends up in: by offset, and at equal offsets by taxonomy position. */
  predicate Before(a: Match, b: Match) {
    a.offset < b.offset || (a.offset == b.offset && KindIndex(a.kind) < KindIndex(b.kind))
  }

  predicate SortedByOffset(ms: seq<Match>) {
    forall i, j :: 0 <= i < j < |ms| ==> Before(ms[i], ms[j])
  }

  /** Insert `x` after every element whose offset is not larger: the step of a stable insertion sort. */
  function InsertByOffset(ms: seq<Match>, x: Match): (r: seq<Match>)
    ensures multiset(r) == multiset(ms) + multiset{x}
  {
    if ms == [] then [x]
    else if x.offset < ms[0].offset then [x] + ms
    else
      assert ms == [ms[0]] + ms[1..];
      [ms[0]] + InsertByOffset(ms[1..], x)
  }

  /**
    `list.sort(key=lambda x: x[0])`. The library sort is stable, and a stable
    sort has exactly one possible result, so this insertion sort yields the
    same list.
  */
  function StableSortByOffset(ms: seq<Match>): (r: seq<Match>)
    ensures multiset(r) == multiset(ms)
  {
    if ms == [] then []
    else
      assert ms == ms[..|ms| - 1] + [ms[|ms| - 1]];
      InsertByOffset(StableSortByOffset(ms[..|ms| - 1]), ms[|ms| - 1])
  }

  /** Putting a match before a sorted list of matches it precedes keeps the list sorted. */
  lemma ConsSorted(x: Match, ms: seq<Match>)
    requires SortedByOffset(ms)
    requires forall m :: m in ms ==> Before(x, m)
    ensures SortedByOffset([x] + ms)
  {
    var r := [x] + ms;
    forall i, j | 0 <= i < j < |r| ensures Before(r[i], r[j]) {
      assert r[j] == ms[j - 1];
      if i > 0 { assert r[i] == ms[i - 1]; }
    }
  }

  /** The first match of a sorted list precedes every other element. */
  lemma SortedHeadBefore(ms: seq<Match>, m: Match)
    requires SortedByOffset(ms) && ms != [] && m in ms[1..]
    ensures Before(ms[0], m)
  {
    var j :| 0 <= j < |ms[1..]| && ms[1..][j] == m;
    assert ms[j + 1] == m;
  }

  lemma {:induction false} InsertKeepsSorted(ms: seq<Match>, x: Match)
    requires SortedByOffset(ms)
    requires forall m :: m in ms ==> Before(m, x) || x.offset < m.offset
    ensures SortedByOffset(InsertByOffset(ms, x))
  {
    if ms != [] && x.offset >= ms[0].offset {
      var tail := ms[1..];
      assert forall m :: m in tail ==> m in ms;
      InsertKeepsSorted(tail, x);
      var ins := InsertByOffset(tail, x);
      assert Before(ms[0], x);
      forall m | m in ins ensures Before(ms[0], m) {
        assert m in multiset(ins);
        if m != x {
          assert m in multiset(tail);
          SortedHeadBefore(ms, m);
        }
      }
      ConsSorted(ms[0], ins);
    } else if ms != [] {
      forall m | m in ms ensures Before(x, m) {
        if m != ms[0] {
          assert m in ms[1..] by {
            var j :| 0 <= j < |ms| && ms[j] == m;
            assert ms[1..][j - 1] == m;
          }
          SortedHeadBefore(ms, m);
        }
      }
      ConsSorted(x, ms);
    }
  }

  /** Sorting the kind-major list of all matches orders it by (offset, taxonomy position). */
  lemma {:induction false} StableSortSorts(ms: seq<Match>)
    requires KindMajor(ms)
    ensures SortedByOffset(StableSortByOffset(ms))
  {
    if ms != [] {
      var init := ms[..|ms| - 1];
      var x := ms[|ms| - 1];
      assert KindMajor(init) by {
        forall i, j | 0 <= i < j < |init|
          ensures KindIndex(init[i].kind) < KindIndex(init[j].kind)
                  || (init[i].kind == init[j].kind && init[i].offset < init[j].offset)
        {
          assert init[i] == ms[i] && init[j] == ms[j];
        }
      }
      StableSortSorts(init);
      var sorted := StableSortByOffset(init);
      forall m | m in sorted ensures Before(m, x) || x.offset < m.offset {
        assert m in multiset(sorted);
        assert m in multiset(init);
        var i :| 0 <= i < |init| && init[i] == m;
        assert ms[i] == m;
      }
      InsertKeepsSorted(sorted, x);
    }
  }

  lemma SortedTail(a: seq<Match>)
    requires a != [] && SortedByOffset(a)
    ensures SortedByOffset(a[1..])
  {
    forall i, j | 0 <= i < j < |a[1..]| ensures Before(a[1..][i], a[1..][j]) {
      assert a[1..][i] == a[i + 1] && a[1..][j] == a[j + 1];
    }
  }

  lemma SortedHeadFirst(a: seq<Match>, x: Match)
    requires a != [] && SortedByOffset(a) && x in multiset(a) && x != a[0]
    ensures Before(a[0], x)
  {
    var i :| 0 <= i < |a| && a[i] == x;
  }

  /** Two orderings of the same matches, both sorted, are the same list: the sorted order is unique. */
  lemma {:induction false} SortedIsUnique(a: seq<Match>, b: seq<Match>)
    requires SortedByOffset(a) && SortedByOffset(b)
    requires multiset(a) == multiset(b)
    ensures a == b
    decreases |a|
  {
    if a != [] {
      assert |b| == |a| by { assert |multiset(a)| == |a| && |multiset(b)| == |b|; }
      SortedSameHead(a, b);
      TailMultiset(a);
      TailMultiset(b);
      SortedTail(a);
      SortedTail(b);
      SortedIsUnique(a[1..], b[1..]);
      assert a == [a[0]] + a[1..] && b == [b[0]] + b[1..];
    }
  }

  lemma SortedSameHead(a: seq<Match>, b: seq<Match>)
    requires a != [] && b != [] && SortedByOffset(a) && SortedByOffset(b)
    requires multiset(a) == multiset(b)
    ensures a[0] == b[0]
  {
    assert a[0] in multiset(b) && b[0] in multiset(a);
    if a[0] != b[0] {
      SortedHeadFirst(a, b[0]);
      SortedHeadFirst(b, a[0]);
    }
  }

  lemma TailMultiset(a: seq<Match>)
    requires a != []
    ensures multiset(a[1..]) == multiset(a) - multiset{a[0]}
  {
    assert a == [a[0]] + a[1..];
  }

  lemma PermutationKeeps(a: seq<Match>, b: seq<Match>, n: nat)
    requires multiset(a) == multiset(b)
    requires OffsetsWithin(a, n)
    ensures OffsetsWithin(b, n)
    ensures forall k :: HasKind(a, k) <==> HasKind(b, k)
  {
    forall j | 0 <= j < |b| ensures b[j].offset < n {
      assert b[j] in multiset(a);
      var i :| 0 <= i < |a| && a[i] == b[j];
    }
    forall k ensures HasKind(a, k) <==> HasKind(b, k) {
      if HasKind(a, k) {
        var i :| 0 <= i < |a| && a[i].kind == k;
        assert a[i] in multiset(b);
        var j :| 0 <= j < |b| && b[j] == a[i];
      }
      if HasKind(b, k) {
        var j :| 0 <= j < |b| && b[j].kind == k;
        assert b[j] in multiset(a);
        var i :| 0 <= i < |a| && a[i] == b[j];
      }
    }
  }

  /** `section_positions` after the sort. */
  function SortedMatches(text: string): (ps: seq<Match>)
    ensures SortedByOffset(ps)
    ensures multiset(ps) == multiset(AllMatches(Lower(text)))
    ensures OffsetsWithin(ps, |text|)
    ensures forall k :: HasKind(ps, k) <==> KindOccurs(Lower(text), k)
  {
    var all := AllMatches(Lower(text));
    AllMatchesShape(Lower(text));
    StableSortSorts(all);
    var ps := StableSortByOffset(all);
    PermutationKeeps(all, ps, |text|);
    forall k ensures HasKind(all, k) <==> KindOccurs(Lower(text), k) {
      AllMatchesKinds(Lower(text), k);
    }
    ps
  }

  // ---------------------------------------------------------------------------
  // Slicing

  /** Where the span of the `i`-th sorted match ends: the next match's offset, or the end of the text. */
  function SpanEnd(ps: seq<Match>, i: nat, n: nat): nat
    requires i < |ps|
  {
    if i + 1 < |ps| then ps[i + 1].offset else n
  }

  predicate OffsetsWithin(ps: seq<Match>, n: nat) {
    forall j :: 0 <= j < |ps| ==> ps[j].offset < n
  }

  /** `text[start_pos:end_pos].strip()` for the `i`-th sorted match. */
  function SpanText(text: string, ps: seq<Match>, i: nat): (r: string)
    requires i < |ps| && SortedByOffset(ps) && OffsetsWithin(ps, |text|)
    ensures Contains(text, r) && Strip(r) == r
  {
    assert i + 1 < |ps| ==> Before(ps[i], ps[i + 1]);
    var a, b := ps[i].offset, SpanEnd(ps, i, |text|);
    var r := Strip(text[a..b]);
    StripContained(text[a..b]);
    ContainsInSlice(text, a, b, r);
    StripIdempotent(text[a..b]);
    r
  }

  /** The index of the last of the first `n` matches whose kind is `k`. */
  function LastOf(ps: seq<Match>, k: SectionKind, n: nat): (r: Option<nat>)
    requires n <= |ps|
    ensures r.Some? ==> r.value < n && ps[r.value].kind == k
    ensures r.Some? ==> forall j :: r.value < j < n ==> ps[j].kind != k
    ensures r.None? ==> forall j :: 0 <= j < n ==> ps[j].kind != k
  {
    if n == 0 then None
    else if ps[n - 1].kind == k then Some(n - 1)
    else LastOf(ps, k, n - 1)
  }

  /** The inner loop of the scan: one `append` per match of a kind's pattern. */
  method AppendMatches(positions: seq<Match>, starts: seq<nat>, k: SectionKind) returns (r: seq<Match>)
    ensures r == positions + Tag(starts, k)
  {
    r := positions;
    for j := 0 to |starts|
      invariant r == positions + Tag(starts[..j], k)
    {
      PrefixStep(starts, j);
      r := r + [Match(starts[j], k)];
    }
    PrefixWhole(starts);
  }

  /** The scan loop of `_parse_sections`: every kind in taxonomy order, every match in finditer order. */
  method CollectPositions(textLower: string) returns (positions: seq<Match>)
    ensures positions == AllMatches(textLower)
  {
    ghost var table := StartTable(textLower);
    positions := [];
    for i := 0 to |Kinds|
      invariant positions == MatchesUpTo(table, i)
    {
      var starts := HeadingStarts(textLower, Keywords(Kinds[i]), 0);
      CollectStep(table, i, starts, textLower);
      positions := AppendMatches(positions, starts, Kinds[i]);
    }
  }

  lemma CollectStep(table: seq<seq<nat>>, i: nat, starts: seq<nat>, lower: string)
    requires table == StartTable(lower) && i < |Kinds|
    requires starts == HeadingStarts(lower, Keywords(Kinds[i]), 0)
    ensures MatchesUpTo(table, i + 1) == MatchesUpTo(table, i) + Tag(starts, Kinds[i])
  {
    StartTableRow(lower, i);
  }

  predicate FilledUpTo(ps: seq<Match>, spans: seq<string>, n: nat, sections: map<SectionKind, string>)
    requires n <= |ps| == |spans|
  {
    (forall k :: k in sections <==> LastOf(ps, k, n).Some?)
    && (forall k :: k in sections ==> sections[k] == spans[LastOf(ps, k, n).value])
  }

  lemma FillStep(ps: seq<Match>, spans: seq<string>, i: nat, sections: map<SectionKind, string>)
    requires i < |ps| == |spans|
    requires FilledUpTo(ps, spans, i, sections)
    ensures FilledUpTo(ps, spans, i + 1, sections[ps[i].kind := spans[i]])
  {
    var s' := sections[ps[i].kind := spans[i]];
    forall k ensures (k in s' <==> LastOf(ps, k, i + 1).Some?)
                     && (k in s' ==> s'[k] == spans[LastOf(ps, k, i + 1).value])
    {
      if k == ps[i].kind {
        assert LastOf(ps, k, i + 1) == Some(i);
      } else {
        assert LastOf(ps, k, i + 1) == LastOf(ps, k, i);
      }
    }
  }

  /** The slice of every sorted match. */
  function Spans(text: string, ps: seq<Match>): (r: seq<string>)
    requires SortedByOffset(ps) && OffsetsWithin(ps, |text|)
    ensures |r| == |ps| && forall i :: 0 <= i < |ps| ==> r[i] == SpanText(text, ps, i)
  {
    seq(|ps|, i requires 0 <= i < |ps| => SpanText(text, ps, i))
  }

  /**
    The dictionary `_parse_sections` returns for `text`: a kind is a key
    exactly when one of its heading keywords occurs in the lowercased text,
    and its value is the stripped slice of its last match in sorted order,
    which is a stripped substring of the text.
  */
  predicate IsSectionMap(text: string, sections: map<SectionKind, string>) {
    && (forall k :: k in sections <==> KindOccurs(Lower(text), k))
    && (forall k :: k in sections ==>
         var ps := SortedMatches(text);
         LastOf(ps, k, |ps|).Some? && sections[k] == SpanText(text, ps, LastOf(ps, k, |ps|).value))
    && (forall k :: k in sections ==> Contains(text, sections[k]) && Strip(sections[k]) == sections[k])
  }

  /** The description above pins the dictionary down: there is only one for each text. */
  lemma SectionMapUnique(text: string, a: map<SectionKind, string>, b: map<SectionKind, string>)
    requires IsSectionMap(text, a) && IsSectionMap(text, b)
    ensures a == b
  {
    assert a.Keys == b.Keys;
  }

  /**
    `_parse_sections`: a kind is a key exactly when one of its heading
    keywords occurs in the lowercased text, and its value is the stripped
    slice of its last match in sorted order.
  */
  method ParseSections(text: string) returns (sections: map<SectionKind, string>)
    ensures IsSectionMap(text, sections)
  {
    var positions := CollectPositions(Lower(text));
    positions := StableSortByOffset(positions);
    assert positions == SortedMatches(text);

    ghost var spans := Spans(text, positions);
    sections := map[];
    for i := 0 to |positions|
      invariant FilledUpTo(positions, spans, i, sections)
    {
      var startPos := positions[i].offset;
      var endPos := if i + 1 < |positions| then positions[i + 1].offset else |text|;
      assert i + 1 < |positions| ==> Before(positions[i], positions[i + 1]);
      assert Strip(text[startPos..endPos]) == spans[i];
      FillStep(positions, spans, i, sections);
      sections := sections[positions[i].kind := Strip(text[startPos..endPos])];
    }
    forall k ensures k in sections <==> HasKind(positions, k) {
      if HasKind(positions, k) {
        var j :| 0 <= j < |positions| && positions[j].kind == k;
      }
    }
  }

  /** Sorted matches at the same offset: the taxonomy-earlier kind comes first and its slice is empty. */
  lemma TiedOffsetsGiveEmptySpan(text: string, i: nat)
    requires i + 1 < |SortedMatches(text)|
    requires SortedMatches(text)[i].offset == SortedMatches(text)[i + 1].offset
    ensures KindIndex(SortedMatches(text)[i].kind) < KindIndex(SortedMatches(text)[i + 1].kind)
    ensures SpanText(text, SortedMatches(text), i) == ""
  {
    var ps := SortedMatches(text);
    assert Before(ps[i], ps[i + 1]);
  }

  /** There are no matches at all exactly when no heading keyword occurs in the text. */
  lemma NoHeadingNoSections(text: string)
    ensures SortedMatches(text) == [] <==> forall k :: !KindOccurs(Lower(text), k)
  {
    var ps := SortedMatches(text);
    if ps != [] {
      assert HasKind(ps, ps[0].kind);
    }
  }

  // ---------------------------------------------------------------------------
  // _find_section_content

  /** `RESUME_SECTIONS.get(section_name, [section_name])`. */
  function SectionPatterns(name: string): seq<string> {
    match KindNamed(name)
    case Some(k) => Keywords(k)
    case None => [name]
  }

  /**
    Where group 1 of `\s*:?\s*\n(.*?)` starts when the keyword ends at `a`.
    Backtracking settles on the last newline of the whitespace after the colon
    when there is a colon followed by such a newline, and otherwise on the last
    newline of the whitespace before it.
  */
  function BodyStart(t: string, a: nat): (r: Option<nat>)
    requires a <= |t|
    ensures r.Some? ==> a < r.value <= |t| && t[r.value - 1] == '\n'
  {
    var b := SkipSpaces(t, a);
    var afterColon :=
      if b < |t| && t[b] == ':' then LastIndexOfChar(t, '\n', b + 1, SkipSpaces(t, b + 1)) else None;
    match afterColon
    case Some(n) => Some(n + 1)
    case None =>
      match LastIndexOfChar(t, '\n', a, b)
      case Some(n) => Some(n + 1)
      case None => None
  }

  /**
    The lookahead `(?=\n[A-Z][a-z]+\s*:|\Z)` at `e`. Under IGNORECASE the two
    classes accept letters of either case, so the next line must start with
    two or more letters followed by optional whitespace and a colon.
  */
  predicate BodyTerminatorAt(t: string, e: nat) {
    e == |t|
    || (e + 2 < |t| && t[e] == '\n' && IsLetter(t[e + 1]) && IsLetter(t[e + 2])
        && var h := SkipSpaces(t, LetterRunEnd(t, e + 1)); h < |t| && t[h] == ':')
  }

  /** Where the lazy `(.*?)` stops: the first terminator at or after `g`. */
  function BodyEnd(t: string, g: nat): (e: nat)
    requires g <= |t|
    ensures g <= e <= |t| && BodyTerminatorAt(t, e)
    ensures forall x :: g <= x < e ==> !BodyTerminatorAt(t, x)
    decreases |t| - g
  {
    if BodyTerminatorAt(t, g) then g else BodyEnd(t, g + 1)
  }

  /** Group 1's start if the section pattern built from `kw` matches at `p` (case-insensitively). */
  function SectionBodyAt(t: string, kw: string, p: nat): (r: Option<nat>)
    ensures r.Some? ==> p + |kw| < r.value <= |t|
  {
    if OccursAt(Lower(t), Lower(kw), p) then BodyStart(t, p + |kw|) else None
  }

  /** `re.search` of the section pattern: the leftmost match at or after `from`, as (start, group-1 start). */
  function SectionSearch(t: string, kw: string, from: nat): (r: Option<(nat, nat)>)
    ensures r.Some? ==> from <= r.value.0 && SectionBodyAt(t, kw, r.value.0) == Some(r.value.1)
    ensures r.Some? ==> forall q :: from <= q < r.value.0 ==> SectionBodyAt(t, kw, q).None?
    ensures r.None? ==> forall q :: from <= q ==> SectionBodyAt(t, kw, q).None?
    decreases |t| + 1 - from
  {
    if from > |t| then
      assert forall q :: from <= q ==> !OccursAt(Lower(t), Lower(kw), q);
      None
    else
      match SectionBodyAt(t, kw, from)
      case Some(g) => Some((from, g))
      case None =>
        var r := SectionSearch(t, kw, from + 1);
        assert SectionBodyAt(t, kw, from).None?;
        assert r.Some? ==> forall q :: from + 1 <= q < r.value.0 ==> SectionBodyAt(t, kw, q).None?;
        assert r.None? ==> forall q :: from + 1 <= q ==> SectionBodyAt(t, kw, q).None?;
        r
  }

  /** The stripped body found by the first of `pats[i..]` whose pattern matches, or `""`. */
  function ContentFrom(t: string, pats: seq<string>, i: nat): (r: string)
    requires i <= |pats|
    ensures Strip(r) == r && Contains(t, r)
    ensures (forall j :: i <= j < |pats| ==> SectionSearch(t, pats[j], 0).None?) ==> r == ""
    decreases |pats| - i
  {
    if i == |pats| then
      assert OccursAt(t, "", 0);
      ""
    else
      match SectionSearch(t, pats[i], 0)
      case Some((_, g)) =>
        var e := BodyEnd(t, g);
        var r := Strip(t[g..e]);
        StripContained(t[g..e]);
        ContainsInSlice(t, g, e, r);
        StripIdempotent(t[g..e]);
        r
      case None => ContentFrom(t, pats, i + 1)
  }

  /** What `_find_section_content(text, name)` returns. */
  function SectionContent(text: string, name: string): string {
    ContentFrom(text, SectionPatterns(name), 0)
  }

  /** The loop of `_find_section_content`: tries the patterns in order and returns at the first match. */
  method SearchPatterns(text: string, patterns: seq<string>) returns (content: string)
    ensures content == ContentFrom(text, patterns, 0)
  {
    for i := 0 to |patterns|
      invariant ContentFrom(text, patterns, 0) == ContentFrom(text, patterns, i)
    {
      var m := SectionSearch(text, patterns[i], 0);
      if m.Some? {
        var g := m.value.1;
        content := Strip(text[g..BodyEnd(text, g)]);
        return;
      }
    }
    content := "";
  }

  /** `_find_section_content`: the section's keywords, or the name itself when it is not a known section. */
  method FindSectionContent(text: string, name: string) returns (content: string)
    ensures content == SectionContent(text, name)
  {
    content := SearchPatterns(text, SectionPatterns(name));
  }

  /** The content found is stripped, is a slice of the text, and is empty when no pattern matches. */
  lemma SectionContentShape(text: string, name: string)
    ensures var c := SectionContent(text, name);
      Strip(c) == c && Contains(text, c)
    ensures (forall j :: 0 <= j < |SectionPatterns(name)| ==> SectionSearch(text, SectionPatterns(name)[j], 0).None?)
            ==> SectionContent(text, name) == ""
  {
  }
}
