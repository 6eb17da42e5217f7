/**
  The line-oriented parsers of `ai_processor.py`: the user-context block put
  into the prompt, and the reading of the model's answers into sections,
  lists and insight paragraphs. The model call itself is outside the model:
  the answer text is a parameter.
*/
module AiProcessor {
  import opened Wrappers
  import opened Text
  import opened Models

  // ---------------------------------------------------------------------------
  // _parse_list

  /**
    The characters `_parse_list` strips from the left of each line: the
    UTF-8 bytes of a bullet read as Windows-1252 (`â`, `€`, `¢`), then
    `-`, `*`, the digits, `.` and the space.
  */
  predicate IsBullet(c: char) {
    c == '\U{E2}' || c == '\U{20AC}' || c == '\U{A2}' || c == '-' || c == '*' || IsDigit(c) || c == '.' || c == ' '
  }

  /** What one line contributes: the line stripped, then its leading bullet characters removed. */
  function ItemOf(line: string): (r: string)
    ensures r == [] || !IsBullet(r[0])
  {
    LStripWhile(Strip(line), IsBullet)
  }

  /** The item of a line is a slice of it. */
  lemma ItemInLine(line: string)
    ensures Contains(line, ItemOf(line))
  {
    var s := Strip(line);
    StripContained(line);
    SuffixContained(s, ItemOf(line));
    ContainsTrans(line, s, ItemOf(line));
  }

  /** The items of `lines`: one per line whose item is non-empty, in line order. */
  function Items(lines: seq<string>): (items: seq<string>)
    ensures |items| <= |lines|
  {
    if lines == [] then []
    else
      var item := ItemOf(lines[|lines| - 1]);
      Items(lines[..|lines| - 1]) + (if item == [] then [] else [item])
  }

  /** `_parse_list`: no items for the empty text, otherwise the items of its lines. */
  function ListItems(text: string): seq<string> {
    if text == "" then [] else Items(Split(text, '\n'))
  }

  /** The items of two runs of lines are the items of each, in order: items keep line order. */
  lemma {:induction false} ItemsConcat(a: seq<string>, b: seq<string>)
    ensures Items(a + b) == Items(a) + Items(b)
    decreases |b|
  {
    if b == [] {
      assert a + b == a;
    } else {
      var init, x := b[..|b| - 1], b[|b| - 1];
      assert b == init + [x];
      assert a + b == (a + init) + [x];
      ItemsConcat(a, init);
      ItemsSnoc(a + init, x);
      ItemsSnoc(init, x);
      var p, q, last := Items(a), Items(init), if ItemOf(x) == [] then [] else [ItemOf(x)];
      assert Items(a + b) == (p + q) + last;
      assert Items(b) == q + last;
      ConcatAssoc(p, q, last);
    }
  }

  /** One more line adds its item, if it has one, at the end. */
  lemma ItemsSnoc(lines: seq<string>, line: string)
    ensures Items(lines + [line]) == Items(lines) + (if ItemOf(line) == [] then [] else [ItemOf(line)])
  {
    SnocPrefix(lines, line);
  }

  /**
    Items of single lines that occur in `text` are non-empty single lines
    that occur in `text` and begin with no bullet character.
  */
  lemma {:induction false} ItemsInText(lines: seq<string>, text: string)
    requires forall j :: 0 <= j < |lines| ==> Contains(text, lines[j]) && '\n' !in lines[j]
    ensures forall k :: 0 <= k < |Items(lines)| ==>
      var item := Items(lines)[k];
      item != [] && !IsBullet(item[0]) && Contains(text, item) && '\n' !in item
    decreases |lines|
  {
    if lines != [] {
      var n := |lines| - 1;
      var line := lines[n];
      assert forall j :: 0 <= j < n ==> lines[..n][j] == lines[j];
      ItemsInText(lines[..n], text);
      var prev, item := Items(lines[..n]), ItemOf(line);
      ItemInLine(line);
      ContainsTrans(text, line, item);
      CharNotInPart(line, item, '\n');
      var items := prev + (if item == [] then [] else [item]);
      assert Items(lines) == items;
      forall k | 0 <= k < |items| ensures items[k] != [] && !IsBullet(items[k][0]) && Contains(text, items[k]) && '\n' !in items[k] {
        if k < |prev| {
          assert items[k] == prev[k];
        } else {
          assert items[k] == item;
        }
      }
    }
  }

  /**
    The items of a text are non-empty, begin with no bullet character, hold
    no line break and occur in the text.
  */
  lemma ListItemsShape(text: string)
    ensures forall k :: 0 <= k < |ListItems(text)| ==>
      var item := ListItems(text)[k];
      item != [] && !IsBullet(item[0]) && '\n' !in item && Contains(text, item)
  {
    if text != "" {
      var lines := Split(text, '\n');
      forall j | 0 <= j < |lines| ensures Contains(text, lines[j]) {
        SplitPartsInText(text, '\n', j);
      }
      ItemsInText(lines, text);
    }
  }

  /** `_parse_list`. */
  method ParseList(text: string) returns (items: seq<string>)
    ensures items == ListItems(text)
  {
    if text == "" {
      return [];
    }
    items := [];
    var lines := Split(text, '\n');
    for i := 0 to |lines|
      invariant items == Items(lines[..i])
    {
      PrefixStep(lines, i);
      var line := Strip(lines[i]);
      if line == "" {
        continue;
      }
      line := LStripWhile(line, IsBullet);
      if line != "" {
        items := items + [line];
      }
    }
    PrefixWhole(lines);
  }

  // ---------------------------------------------------------------------------
  // _extract_section

  /** The four section headers of the optimisation answer. */
  const KnownHeaders: seq<string> := ["OPTIMIZED_RESUME:", "CHANGES_MADE:", "SUGGESTIONS:", "CONFIDENCE_SCORE:"]

  /**
    The lines `_extract_section` collects from `lines`: every line holding
    `header` is skipped and opens the section; inside it, the first line
    holding any of the four headers ends the collection.
  */
  function Collected(lines: seq<string>, header: string, stops: seq<string>, inSection: bool): (r: seq<string>)
    ensures forall k :: 0 <= k < |r| ==> !Contains(r[k], header) && !ContainsAny(r[k], stops)
    decreases |lines|
  {
    if lines == [] then []
    else if Contains(lines[0], header) then Collected(lines[1..], header, stops, true)
    else if !inSection then Collected(lines[1..], header, stops, false)
    else if ContainsAny(lines[0], stops) then []
    else [lines[0]] + Collected(lines[1..], header, stops, true)
  }

  /** `_extract_section`: the collected lines joined by line breaks and stripped. */
  function SectionText(text: string, header: string): (r: string)
    ensures Stripped(r)
  {
    Strip(Join(Collected(Split(text, '\n'), header, KnownHeaders, false), '\n'))
  }

  /** Outside the section, lines without the header collect nothing. */
  lemma {:induction false} CollectedNone(lines: seq<string>, header: string, stops: seq<string>)
    requires forall k :: 0 <= k < |lines| ==> !Contains(lines[k], header)
    ensures Collected(lines, header, stops, false) == []
    decreases |lines|
  {
    if lines != [] {
      assert !Contains(lines[0], header);
      CollectedNone(lines[1..], header, stops);
    }
  }

  /** A header the text does not contain yields `''`. */
  lemma SectionMissing(text: string, header: string)
    requires !Contains(text, header)
    ensures SectionText(text, header) == ""
  {
    var lines := Split(text, '\n');
    forall k | 0 <= k < |lines| ensures !Contains(lines[k], header) {
      SplitPartsInText(text, '\n', k);
      if Contains(lines[k], header) {
        ContainsTrans(text, lines[k], header);
      }
    }
    CollectedNone(lines, header, KnownHeaders);
  }

  /** Before the header line nothing is collected: the result is what follows it. */
  lemma {:induction false} CollectedAfterPreamble(pre: seq<string>, rest: seq<string>, header: string, stops: seq<string>)
    requires forall k :: 0 <= k < |pre| ==> !Contains(pre[k], header)
    ensures Collected(pre + rest, header, stops, false) == Collected(rest, header, stops, false)
    decreases |pre|
  {
    if pre == [] {
      assert pre + rest == rest;
    } else {
      assert (pre + rest)[0] == pre[0];
      assert (pre + rest)[1..] == pre[1..] + rest;
      CollectedAfterPreamble(pre[1..], rest, header, stops);
    }
  }

  /** Inside the section, ordinary lines are collected up to the first line holding another header. */
  lemma {:induction false} CollectedBody(body: seq<string>, stop: string, post: seq<string>, header: string, stops: seq<string>)
    requires forall k :: 0 <= k < |body| ==> !Contains(body[k], header) && !ContainsAny(body[k], stops)
    requires !Contains(stop, header) && ContainsAny(stop, stops)
    ensures Collected(body + [stop] + post, header, stops, true) == body
    decreases |body|
  {
    if body == [] {
      assert body + [stop] + post == [stop] + post;
    } else {
      assert (body + [stop] + post)[0] == body[0];
      assert (body + [stop] + post)[1..] == body[1..] + [stop] + post;
      CollectedBody(body[1..], stop, post, header, stops);
    }
  }

  /** No line break in any of `lines`. */
  predicate SingleLines(lines: seq<string>) {
    forall k :: 0 <= k < |lines| ==> '\n' !in lines[k]
  }

  /**
    A section laid out as a header line, its body and the next header line:
    the result is exactly the body, joined by line breaks and stripped.
  */
  lemma SectionOfLayout(pre: seq<string>, head: string, body: seq<string>, stop: string, post: seq<string>, header: string)
    requires forall k :: 0 <= k < |pre| ==> !Contains(pre[k], header)
    requires Contains(head, header)
    requires forall k :: 0 <= k < |body| ==> !Contains(body[k], header) && !ContainsAny(body[k], KnownHeaders)
    requires !Contains(stop, header) && ContainsAny(stop, KnownHeaders)
    requires SingleLines(pre + [head] + body + [stop] + post)
    ensures SectionText(Join(pre + [head] + body + [stop] + post, '\n'), header) == Strip(Join(body, '\n'))
  {
    var lines := pre + [head] + body + [stop] + post;
    SplitJoin(lines, '\n');
    var tail := body + [stop] + post;
    assert lines == pre + ([head] + tail);
    CollectedAfterPreamble(pre, [head] + tail, header, KnownHeaders);
    assert ([head] + tail)[0] == head;
    assert ([head] + tail)[1..] == tail;
    CollectedBody(body, stop, post, header, KnownHeaders);
  }

  /** `_extract_section`. */
  method ExtractSection(text: string, header: string) returns (r: string)
    ensures r == SectionText(text, header)
  {
    var lines := Split(text, '\n');
    var stops := KnownHeaders;
    var content: seq<string> := [];
    var inSection := false;
    var i := 0;
    while i < |lines|
      invariant 0 <= i <= |lines|
      invariant content + Collected(lines[i..], header, stops, inSection) == Collected(lines, header, stops, false)
    {
      var line := lines[i];
      assert lines[i..][0] == line;
      assert lines[i..][1..] == lines[i + 1..];
      if Contains(line, header) {
        inSection := true;
        i := i + 1;
        continue;
      }
      if inSection {
        if ContainsAny(line, stops) {
          break;
        }
        content := content + [line];
      }
      i := i + 1;
    }
    assert content == Collected(lines, header, stops, false);
    r := Strip(Join(content, '\n'));
  }

  // ---------------------------------------------------------------------------
  // _parse_insights_response

  /** A stripped line holding one of these, lower-cased, is a section header. */
  const InsightKeywords: seq<string> := ["key skills", "experience", "industry", "salary", "growth", "culture"]

  predicate IsInsightHeader(line: string) {
    ContainsAny(Lower(line), InsightKeywords)
  }

  /** The parser's state: the current header, the lines under it so far, and the sections saved. */
  datatype InsightState = InsightState(current: Option<string>, content: seq<string>, insights: map<string, string>)

  const StartState: InsightState := InsightState(None, [], map[])

  /** The sections with the current one saved, when it has a header and content. */
  function Saved(st: InsightState): map<string, string> {
    if st.current.Some? && st.current.value != "" && st.content != [] then
      st.insights[st.current.value := Join(st.content, '\n')]
    else st.insights
  }

  /** One line: blank lines are skipped, a header saves the current section and opens its own, other lines join the open section. */
  function Step(st: InsightState, raw: string, isHeader: string -> bool): InsightState {
    var line := Strip(raw);
    if line == "" then st
    else if isHeader(line) then InsightState(Some(line), [], Saved(st))
    else if st.current.Some? && st.current.value != "" then st.(content := st.content + [line])
    else st
  }

  /** The state after the lines, from `st`. */
  function Run(st: InsightState, lines: seq<string>, isHeader: string -> bool): InsightState {
    if lines == [] then st else Step(Run(st, lines[..|lines| - 1], isHeader), lines[|lines| - 1], isHeader)
  }

  /** `_parse_insights_response`: the sections once the last one is saved. */
  function Insights(text: string): map<string, string> {
    Saved(Run(StartState, Split(text, '\n'), IsInsightHeader))
  }

  lemma {:induction false} RunConcat(st: InsightState, a: seq<string>, b: seq<string>, isHeader: string -> bool)
    ensures Run(st, a + b, isHeader) == Run(Run(st, a, isHeader), b, isHeader)
    decreases |b|
  {
    if b == [] {
      assert a + b == a;
    } else {
      var n := |b| - 1;
      assert (a + b)[..|a + b| - 1] == a + b[..n];
      assert (a + b)[|a + b| - 1] == b[n];
      RunConcat(st, a, b[..n], isHeader);
    }
  }

  /** No line before the first header changes anything. */
  lemma {:induction false} PreambleIgnored(pre: seq<string>, isHeader: string -> bool)
    requires forall k :: 0 <= k < |pre| ==> !isHeader(Strip(pre[k]))
    ensures Run(StartState, pre, isHeader) == StartState
    decreases |pre|
  {
    if pre != [] {
      var n := |pre| - 1;
      forall k | 0 <= k < n ensures !isHeader(Strip(pre[..n][k])) {
        assert pre[..n][k] == pre[k];
      }
      PreambleIgnored(pre[..n], isHeader);
      assert !isHeader(Strip(pre[n]));
      assert Step(StartState, pre[n], isHeader) == StartState;
    }
  }

  /** The lines before the first header line are ignored. */
  lemma InsightsIgnorePreamble(pre: seq<string>, rest: seq<string>)
    requires forall k :: 0 <= k < |pre| ==> !IsInsightHeader(Strip(pre[k]))
    ensures Saved(Run(StartState, pre + rest, IsInsightHeader)) == Saved(Run(StartState, rest, IsInsightHeader))
  {
    RunConcat(StartState, pre, rest, IsInsightHeader);
    PreambleIgnored(pre, IsInsightHeader);
  }

  /** A line the parser keeps as it is: stripped, non-blank and not a header. */
  predicate BodyLine(line: string, isHeader: string -> bool) {
    line != "" && Strip(line) == line && !isHeader(line)
  }

  /** Body lines under an open header accumulate in order. */
  lemma {:induction false} BodyAccumulates(h: string, saved: map<string, string>, body: seq<string>, isHeader: string -> bool)
    requires h != ""
    requires forall k :: 0 <= k < |body| ==> BodyLine(body[k], isHeader)
    ensures Run(InsightState(Some(h), [], saved), body, isHeader) == InsightState(Some(h), body, saved)
    decreases |body|
  {
    if body != [] {
      var n := |body| - 1;
      var prefix, line := body[..n], body[n];
      assert forall k :: 0 <= k < n ==> prefix[k] == body[k];
      BodyAccumulates(h, saved, prefix, isHeader);
      BodyStep(h, saved, prefix, line, isHeader);
      InitLast(body);
    }
  }

  /** A body line under an open header is appended to its lines. */
  lemma BodyStep(h: string, saved: map<string, string>, content: seq<string>, line: string, isHeader: string -> bool)
    requires h != "" && BodyLine(line, isHeader)
    ensures Step(InsightState(Some(h), content, saved), line, isHeader) == InsightState(Some(h), content + [line], saved)
  {
  }

  /**
    A header line followed by body lines to the end is saved with those
    lines, whatever came before: a repeated header overwrites the earlier
    section.
  */
  lemma LastSectionSaved(st: InsightState, h: string, body: seq<string>, isHeader: string -> bool)
    requires h != "" && Strip(h) == h && isHeader(h)
    requires body != [] && forall k :: 0 <= k < |body| ==> BodyLine(body[k], isHeader)
    ensures var r := Saved(Run(st, [h] + body, isHeader)); h in r && r[h] == Join(body, '\n')
  {
    RunConcat(st, [h], body, isHeader);
    assert [h][..0] == [];
    assert Run(st, [h], isHeader) == InsightState(Some(h), [], Saved(st));
    BodyAccumulates(h, Saved(st), body, isHeader);
  }

  /** A header followed directly by another header saves nothing for the first. */
  lemma HeaderWithoutBody(st: InsightState, h: string, next: string, isHeader: string -> bool)
    requires h != "" && Strip(h) == h && isHeader(h)
    requires Strip(next) != "" && isHeader(Strip(next))
    ensures Run(st, [h, next], isHeader) == InsightState(Some(Strip(next)), [], Saved(st))
  {
    assert [h, next][..1] == [h];
    assert [h][..0] == [];
    assert Run(st, [h], isHeader) == InsightState(Some(h), [], Saved(st));
    var s1 := InsightState(Some(h), [], Saved(st));
    assert Saved(s1) == Saved(st);
  }

  /** Every saved section has a stripped header line as key and non-empty body lines as value. */
  predicate WellSaved(insights: map<string, string>, isHeader: string -> bool) {
    forall k :: k in insights ==>
      && k != "" && Strip(k) == k && isHeader(k)
      && insights[k] != "" && (forall j :: 0 <= j < |Split(insights[k], '\n')| ==> BodyLine(Split(insights[k], '\n')[j], isHeader))
  }

  /** The parser's invariant: an open header is a stripped header line and its lines are body lines. */
  predicate WellFormed(st: InsightState, isHeader: string -> bool) {
    && WellSaved(st.insights, isHeader)
    && (st.current.Some? ==> st.current.value != "" && Strip(st.current.value) == st.current.value && isHeader(st.current.value))
    && (forall j :: 0 <= j < |st.content| ==> BodyLine(st.content[j], isHeader) && '\n' !in st.content[j])
  }

  lemma SavedWellSaved(st: InsightState, isHeader: string -> bool)
    requires WellFormed(st, isHeader)
    ensures WellSaved(Saved(st), isHeader)
  {
    if st.current.Some? && st.current.value != "" && st.content != [] {
      var v := Join(st.content, '\n');
      SplitJoin(st.content, '\n');
      assert BodyLine(st.content[0], isHeader);
      assert Split(v, '\n')[0] != "";
    }
  }

  /** A stripped line holds no line break when the raw line holds none, and stripping it again changes nothing. */
  lemma StrippedLine(raw: string)
    requires '\n' !in raw
    ensures '\n' !in Strip(raw) && Strip(Strip(raw)) == Strip(raw)
  {
    StripIdempotent(raw);
    StripContained(raw);
    CharNotInPart(raw, Strip(raw), '\n');
  }

  /** A body line appended to the open section keeps its lines well formed. */
  lemma AppendBodyLine(content: seq<string>, line: string, isHeader: string -> bool)
    requires forall j :: 0 <= j < |content| ==> BodyLine(content[j], isHeader) && '\n' !in content[j]
    requires BodyLine(line, isHeader) && '\n' !in line
    ensures var c := content + [line]; forall j :: 0 <= j < |c| ==> BodyLine(c[j], isHeader) && '\n' !in c[j]
  {
    var c := content + [line];
    forall j | 0 <= j < |c| ensures BodyLine(c[j], isHeader) && '\n' !in c[j] {
      if j < |content| {
        assert c[j] == content[j];
      }
    }
  }

  /** Each step keeps the invariant, on lines without line breaks. */
  lemma StepWellFormed(st: InsightState, raw: string, isHeader: string -> bool)
    requires WellFormed(st, isHeader) && '\n' !in raw
    ensures WellFormed(Step(st, raw, isHeader), isHeader)
  {
    var line := Strip(raw);
    StrippedLine(raw);
    if line != "" && isHeader(line) {
      SavedWellSaved(st, isHeader);
    } else if line != "" && st.current.Some? && st.current.value != "" {
      AppendBodyLine(st.content, line, isHeader);
    }
  }

  lemma {:induction false} RunWellFormed(lines: seq<string>, isHeader: string -> bool)
    requires SingleLines(lines)
    ensures WellFormed(Run(StartState, lines, isHeader), isHeader)
    decreases |lines|
  {
    if lines != [] {
      var n := |lines| - 1;
      assert forall k :: 0 <= k < n ==> lines[..n][k] == lines[k];
      RunWellFormed(lines[..n], isHeader);
      StepWellFormed(Run(StartState, lines[..n], isHeader), lines[n], isHeader);
    }
  }

  /**
    Every key of the insights is a stripped header line, and every value
    is non-empty and made of the stripped, non-blank, non-header lines
    that followed it.
  */
  lemma InsightsShape(text: string)
    ensures WellSaved(Insights(text), IsInsightHeader)
  {
    RunWellFormed(Split(text, '\n'), IsInsightHeader);
    SavedWellSaved(Run(StartState, Split(text, '\n'), IsInsightHeader), IsInsightHeader);
  }

  lemma RunStep(lines: seq<string>, i: nat, isHeader: string -> bool)
    requires i < |lines|
    ensures Run(StartState, lines[..i + 1], isHeader) == Step(Run(StartState, lines[..i], isHeader), lines[i], isHeader)
  {
    PrefixStep(lines, i);
  }

  /** Saving the open section: its lines joined by newlines, under its header, when both are non-empty. */
  method SaveSection(current: Option<string>, content: seq<string>, insights: map<string, string>)
    returns (r: map<string, string>)
    ensures r == Saved(InsightState(current, content, insights))
    ensures current.Some? && current.value != "" && content != [] ==>
      r.Keys == insights.Keys + {current.value} && r[current.value] == Join(content, '\n')
    ensures !(current.Some? && current.value != "" && content != []) ==> r == insights
  {
    r := insights;
    if current.Some? && current.value != "" && content != [] {
      r := insights[current.value := Join(content, '\n')];
    }
  }

  /** The body of the loop of `_parse_insights_response`: line `i` read into the state the lines before it left. */
  method ReadInsightLine(current: Option<string>, content: seq<string>, insights: map<string, string>,
                         lines: seq<string>, i: nat)
    returns (current': Option<string>, content': seq<string>, insights': map<string, string>)
    requires i < |lines|
    requires InsightState(current, content, insights) == Run(StartState, lines[..i], IsInsightHeader)
    ensures InsightState(current', content', insights') == Run(StartState, lines[..i + 1], IsInsightHeader)
  {
    RunStep(lines, i, IsInsightHeader);
    current', content', insights' := current, content, insights;
    var line := Strip(lines[i]);
    if line == "" {
      return;
    }
    if IsInsightHeader(line) {
      insights' := SaveSection(current, content, insights);
      current' := Some(line);
      content' := [];
    } else if current.Some? && current.value != "" {
      content' := content + [line];
    }
  }

  /** The loop of `_parse_insights_response` over the lines of the response. */
  method ReadInsightLines(lines: seq<string>)
    returns (current: Option<string>, content: seq<string>, insights: map<string, string>)
    ensures InsightState(current, content, insights) == Run(StartState, lines, IsInsightHeader)
  {
    insights := map[];
    current := None;
    content := [];
    for i := 0 to |lines|
      invariant InsightState(current, content, insights) == Run(StartState, lines[..i], IsInsightHeader)
    {
      current, content, insights := ReadInsightLine(current, content, insights, lines, i);
    }
    PrefixWhole(lines);
  }

  /** `_parse_insights_response`. */
  method ParseInsightsResponse(text: string) returns (insights: map<string, string>)
    ensures insights == Insights(text)
  {
    var current, content;
    current, content, insights := ReadInsightLines(Split(text, '\n'));
    insights := SaveSection(current, content, insights);
  }

  // ---------------------------------------------------------------------------
  // _build_context_info

  const NoContext: string := "No additional context provided."

  /** The categories of `entries` in order of first appearance: the keys of the grouping dictionary. */
  function Categories(entries: seq<ContextEntry>): seq<string> {
    if entries == [] then []
    else
      var prev := Categories(entries[..|entries| - 1]);
      var c := entries[|entries| - 1].category;
      if c in prev then prev else prev + [c]
  }

  /** The contents filed under category `c`, in input order. */
  function Contents(entries: seq<ContextEntry>, c: string): seq<string> {
    if entries == [] then []
    else
      var e := entries[|entries| - 1];
      Contents(entries[..|entries| - 1], c) + (if e.category == c then [e.content] else [])
  }

  /** The bullet lines of one category. */
  function Bullets(contents: seq<string>): string {
    if contents == [] then ""
    else Bullets(contents[..|contents| - 1]) + "- " + contents[|contents| - 1] + "\n"
  }

  lemma BulletStep(prefix: string, contents: seq<string>, k: nat)
    requires k < |contents|
    ensures prefix + Bullets(contents[..k]) + "- " + contents[k] + "\n" == prefix + Bullets(contents[..k + 1])
  {
    PrefixStep(contents, k);
  }

  /** The block of one category: a blank line, the upper-cased category and a colon, then its bullet lines. */
  function Block(category: string, contents: seq<string>): string {
    "\n" + Upper(category) + ":\n" + Bullets(contents)
  }

  /** The blocks of `cats`, in order. */
  function Blocks(cats: seq<string>, entries: seq<ContextEntry>): string {
    if cats == [] then ""
    else
      var c := cats[|cats| - 1];
      Blocks(cats[..|cats| - 1], entries) + Block(c, Contents(entries, c))
  }

  /** `_build_context_info`. */
  function ContextText(entries: seq<ContextEntry>): string {
    if entries == [] then NoContext else Blocks(Categories(entries), entries)
  }

  /** A category is listed exactly when some entry has it. */
  lemma {:induction false} CategoriesMembers(entries: seq<ContextEntry>)
    ensures forall c :: c in Categories(entries) <==> exists i :: 0 <= i < |entries| && entries[i].category == c
    decreases |entries|
  {
    if entries != [] {
      var n := |entries| - 1;
      CategoriesMembers(entries[..n]);
      forall c ensures c in Categories(entries) <==> exists i :: 0 <= i < |entries| && entries[i].category == c {
        if exists i :: 0 <= i < |entries| && entries[i].category == c {
          var i :| 0 <= i < |entries| && entries[i].category == c;
          if i < n {
            assert entries[..n][i] == entries[i];
          }
        }
        if c in Categories(entries[..n]) {
          var i :| 0 <= i < n && entries[..n][i].category == c;
          assert entries[i].category == c;
        }
      }
    }
  }

  /** No category is listed twice. */
  lemma {:induction false} CategoriesDistinct(entries: seq<ContextEntry>)
    ensures forall i, j :: 0 <= i < j < |Categories(entries)| ==> Categories(entries)[i] != Categories(entries)[j]
    decreases |entries|
  {
    if entries != [] {
      CategoriesDistinct(entries[..|entries| - 1]);
    }
  }

  /** The categories of a prefix of the entries are a prefix of the categories: the order is that of first appearance. */
  lemma {:induction false} CategoriesPrefix(a: seq<ContextEntry>, b: seq<ContextEntry>)
    ensures Categories(a) <= Categories(a + b)
    decreases |b|
  {
    if b == [] {
      assert a + b == a;
    } else {
      var n := |b| - 1;
      assert (a + b)[..|a + b| - 1] == a + b[..n];
      CategoriesPrefix(a, b[..n]);
    }
  }

  /** Contents keep input order across any split of the entries. */
  lemma {:induction false} ContentsConcat(a: seq<ContextEntry>, b: seq<ContextEntry>, c: string)
    ensures Contents(a + b, c) == Contents(a, c) + Contents(b, c)
    decreases |b|
  {
    if b == [] {
      assert a + b == a;
    } else {
      var n := |b| - 1;
      assert (a + b)[..|a + b| - 1] == a + b[..n];
      assert (a + b)[|a + b| - 1] == b[n];
      ContentsConcat(a, b[..n], c);
    }
  }

  lemma ContentsSnoc(entries: seq<ContextEntry>, e: ContextEntry)
    ensures forall c :: Contents(entries + [e], c) == Contents(entries, c) + (if e.category == c then [e.content] else [])
  {
    SnocPrefix(entries, e);
  }

  lemma CategoriesSnoc(entries: seq<ContextEntry>, e: ContextEntry)
    ensures Categories(entries + [e]) == if e.category in Categories(entries) then Categories(entries) else Categories(entries) + [e.category]
  {
    SnocPrefix(entries, e);
  }

  /** A category no entry has files nothing. */
  lemma {:induction false} ContentsOfAbsent(entries: seq<ContextEntry>, c: string)
    requires forall i :: 0 <= i < |entries| ==> entries[i].category != c
    ensures Contents(entries, c) == []
    decreases |entries|
  {
    if entries != [] {
      var n := |entries| - 1;
      assert forall i :: 0 <= i < n ==> entries[..n][i] == entries[i];
      ContentsOfAbsent(entries[..n], c);
    }
  }

  /** The number of contents filed under the categories `cats`. */
  function Filed(cats: seq<string>, entries: seq<ContextEntry>): nat {
    if cats == [] then 0
    else Filed(cats[..|cats| - 1], entries) + |Contents(entries, cats[|cats| - 1])|
  }

  /** One more entry adds one to the count of its category, when that is listed once, and nothing otherwise. */
  lemma {:induction false} FiledSnoc(cats: seq<string>, entries: seq<ContextEntry>, e: ContextEntry)
    requires forall i, j :: 0 <= i < j < |cats| ==> cats[i] != cats[j]
    ensures Filed(cats, entries + [e]) == Filed(cats, entries) + (if e.category in cats then 1 else 0)
    decreases |cats|
  {
    if cats != [] {
      var n := |cats| - 1;
      SnocPrefix(entries, e);
      FiledSnoc(cats[..n], entries, e);
      assert e.category in cats <==> e.category in cats[..n] || e.category == cats[n];
      if e.category == cats[n] {
        assert e.category !in cats[..n];
      }
    }
  }

  /** Every entry is filed exactly once: the blocks hold as many bullet lines as there are entries. */
  lemma {:induction false} EveryEntryFiled(entries: seq<ContextEntry>)
    ensures Filed(Categories(entries), entries) == |entries|
    decreases |entries|
  {
    if entries != [] {
      var n := |entries| - 1;
      var prev, e := entries[..n], entries[n];
      assert entries == prev + [e];
      EveryEntryFiled(prev);
      CategoriesDistinct(prev);
      var cats := Categories(prev);
      FiledSnoc(cats, prev, e);
      if e.category !in cats {
        CategoriesMembers(prev);
        ContentsOfAbsent(prev, e.category);
        SnocPrefix(cats, e.category);
      }
    }
  }

  /** `_build_context_info`: the grouping dictionary as its key order and its lists, then the blocks in that order. */
  method BuildContextInfo(entries: seq<ContextEntry>) returns (info: string)
    ensures info == ContextText(entries)
  {
    if entries == [] {
      return NoContext;
    }
    var order, groups := GroupByCategory(entries);
    info := "";
    for j := 0 to |order|
      invariant info == Blocks(order[..j], entries)
    {
      var category := order[j];
      PrefixStep(order, j);
      info := AppendBlock(info, category, groups[category]);
    }
    PrefixWhole(order);
  }

  /**
    The first loop of `_build_context_info`: the dictionary of contents by
    category, as the order of its keys and the map itself.
  */
  method GroupByCategory(entries: seq<ContextEntry>) returns (order: seq<string>, groups: map<string, seq<string>>)
    ensures order == Categories(entries)
    ensures forall c :: c in groups <==> c in order
    ensures forall c :: c in groups ==> groups[c] == Contents(entries, c)
  {
    order, groups := [], map[];
    for i := 0 to |entries|
      invariant order == Categories(entries[..i])
      invariant forall c :: c in groups <==> c in order
      invariant forall c :: c in groups ==> groups[c] == Contents(entries[..i], c)
    {
      var e := entries[i];
      assert entries[..i + 1] == entries[..i] + [e];
      ContentsSnoc(entries[..i], e);
      CategoriesSnoc(entries[..i], e);
      if e.category !in groups {
        CategoriesMembers(entries[..i]);
        ContentsOfAbsent(entries[..i], e.category);
        groups := groups[e.category := []];
        order := order + [e.category];
      }
      groups := groups[e.category := groups[e.category] + [e.content]];
    }
    PrefixWhole(entries);
  }

  /** The body of the outer loop of `_build_context_info`: one category's block appended to `info`. */
  method AppendBlock(info: string, category: string, contents: seq<string>) returns (r: string)
    ensures r == info + Block(category, contents)
  {
    var heading := "\n" + Upper(category) + ":\n";
    r := info + heading;
    for k := 0 to |contents|
      invariant r == info + heading + Bullets(contents[..k])
    {
      BulletStep(info + heading, contents, k);
      r := r + "- " + contents[k] + "\n";
    }
    PrefixWhole(contents);
  }

  // ---------------------------------------------------------------------------
  // _parse_optimization_response

  /**
    `_parse_optimization_response`: the four sections of the answer. The
    resume falls back to the original when its section is empty or
    missing; the confidence section is kept as text, read by the program
    as a floating-point score.
  */
  method ParseOptimizationResponse(responseText: string, originalResume: string, processingTime: real)
    returns (result: OptimizationResult)
    ensures result.originalResume == originalResume && result.processingTime == processingTime
    ensures var resume := SectionText(responseText, "OPTIMIZED_RESUME:");
      result.optimizedResume == if resume == "" then originalResume else resume
    ensures result.changesMade == ListItems(SectionText(responseText, "CHANGES_MADE:"))
    ensures result.suggestions == ListItems(SectionText(responseText, "SUGGESTIONS:"))
    ensures result.confidenceText == SectionText(responseText, "CONFIDENCE_SCORE:")
  {
    var optimizedResume := ExtractSection(responseText, "OPTIMIZED_RESUME:");
    if optimizedResume == "" {
      optimizedResume := originalResume;
    }
    var changesText := ExtractSection(responseText, "CHANGES_MADE:");
    var changesMade := ParseList(changesText);
    var suggestionsText := ExtractSection(responseText, "SUGGESTIONS:");
    var suggestions := ParseList(suggestionsText);
    var confidenceText := ExtractSection(responseText, "CONFIDENCE_SCORE:");
    result := OptimizationResult(originalResume, optimizedResume, changesMade, suggestions, confidenceText, processingTime);
  }
}
