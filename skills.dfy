/**
  `_extract_skills` in `src/resume_parser.py`: every vocabulary skill that
  occurs (case-insensitively) anywhere in the text, plus the free-form items
  listed in the skills section, either after a bullet or before a comma or
  newline, kept when their stripped length is between 3 and 49.
*/
module SkillExtractor {
  import opened Wrappers
  import opened Text
  import opened Models
  import opened SectionSegmenter

  // ---------------------------------------------------------------------------
  // The vocabulary pass

  /** The words of `words` that `skill.lower() in text_lower` accepts. */
  function VocabularyHits(words: seq<string>, textLower: string): (r: set<string>)
    ensures forall w :: w in r <==> w in words && Contains(textLower, Lower(w))
  {
    set w | w in words && Contains(textLower, Lower(w))
  }

  /** Vocabulary hits of a longer word list are the hits of its parts. */
  lemma VocabularyHitsConcat(a: seq<string>, b: seq<string>, textLower: string)
    ensures VocabularyHits(a + b, textLower) == VocabularyHits(a, textLower) + VocabularyHits(b, textLower)
  {
  }

  /** The nested loop over the categories and their skills. */
  method ScanVocabulary(cats: seq<seq<string>>, textLower: string) returns (skills: set<string>)
    ensures skills == VocabularyHits(Flatten(cats), textLower)
  {
    skills := {};
    for c := 0 to |cats|
      invariant skills == VocabularyHits(Flatten(cats[..c]), textLower)
    {
      for j := 0 to |cats[c]|
        invariant skills == VocabularyHits(Flatten(cats[..c]) + cats[c][..j], textLower)
      {
        assert cats[c][..j + 1] == cats[c][..j] + [cats[c][j]];
        VocabularyHitsConcat(Flatten(cats[..c]) + cats[c][..j], [cats[c][j]], textLower);
        if Contains(textLower, Lower(cats[c][j])) {
          skills := skills + {cats[c][j]};
        }
      }
      PrefixStep(cats, c);
      assert cats[c][..|cats[c]|] == cats[c];
    }
    PrefixWhole(cats);
  }

  // ---------------------------------------------------------------------------
  // The two findall patterns over the skills section

  /** A bullet of the class `[•\-\*]`. */
  predicate IsBullet(c: char) { c == '\U{2022}' || c == '-' || c == '*' }

  /** `re.findall(r'[•\-\*]\s*([^,\n]+)', section)`, scanning from `from`. */
  function BulletItems(t: string, from: nat): (items: seq<string>)
    requires from <= |t|
    ensures forall i :: 0 <= i < |items| ==> items[i] != [] && Contains(t, items[i])
    ensures forall i :: 0 <= i < |items| ==> forall k :: 0 <= k < |items[i]| ==> FieldChar(items[i][k])
    decreases |t| - from
  {
    if from == |t| then []
    else if IsBullet(t[from]) then
      match FieldAfter(t, from + 1, 0)
      case Some((a, b)) =>
        ContainsWhole(t[a..b]);
        ContainsInSlice(t, a, b, t[a..b]);
        [t[a..b]] + BulletItems(t, b)
      case None => BulletItems(t, from + 1)
    else BulletItems(t, from + 1)
  }

  /**
    `re.findall(r'([^,\n]+)(?=,|\n)', section)`, scanning from `from`: a
    maximal run of field characters is reported when a comma or newline
    follows it, never the trailing run at the end of the text.
  */
  function CommaItems(t: string, from: nat): (items: seq<string>)
    requires from <= |t|
    ensures forall i :: 0 <= i < |items| ==> items[i] != [] && Contains(t, items[i])
    ensures forall i :: 0 <= i < |items| ==> forall k :: 0 <= k < |items[i]| ==> FieldChar(items[i][k])
    decreases |t| - from
  {
    if from == |t| then []
    else if !FieldChar(t[from]) then CommaItems(t, from + 1)
    else
      var r := RunEnd(t, from, ",\n");
      if r < |t| then
        ContainsWhole(t[from..r]);
        ContainsInSlice(t, from, r, t[from..r]);
        [t[from..r]] + CommaItems(t, r)
      else CommaItems(t, from + 1)
  }

  /** A stripped candidate is kept when `2 < len(skill) < 50`. */
  predicate ReasonableLength(skill: string) { 2 < |skill| < 50 }

  /** The skills the candidate list `items` contributes: the stripped candidates of reasonable length. */
  function KeptItems(items: seq<string>): set<string> {
    if items == [] then {}
    else KeptItems(items[..|items| - 1]) + KeptOf(items[|items| - 1])
  }

  /** What one candidate contributes: its stripped form when that has a reasonable length. */
  function KeptOf(item: string): set<string> {
    var skill := Strip(item);
    if ReasonableLength(skill) then {skill} else {}
  }

  /** Every kept skill is the stripped form of some candidate, and has a reasonable length. */
  lemma {:induction false} KeptItemOrigin(items: seq<string>, s: string) returns (i: nat)
    requires s in KeptItems(items)
    ensures i < |items| && s == Strip(items[i]) && ReasonableLength(s)
  {
    var n := |items| - 1;
    assert KeptItems(items) == KeptItems(items[..n]) + KeptOf(items[n]);
    if s in KeptItems(items[..n]) {
      i := KeptItemOrigin(items[..n], s);
      assert items[..n][i] == items[i];
    } else {
      i := n;
      assert s in KeptOf(items[n]);
    }
  }

  /** Every candidate of reasonable length once stripped is kept. */
  lemma {:induction false} KeptItemsComplete(items: seq<string>, i: nat)
    requires i < |items| && ReasonableLength(Strip(items[i]))
    ensures Strip(items[i]) in KeptItems(items)
  {
    var n := |items| - 1;
    assert KeptItems(items) == KeptItems(items[..n]) + KeptOf(items[n]);
    if i < n {
      assert items[..n][i] == items[i];
      KeptItemsComplete(items[..n], i);
    } else {
      assert Strip(items[i]) in KeptOf(items[n]);
    }
  }

  /** The loop over one pattern's matches. */
  method AddKept(skills: set<string>, items: seq<string>) returns (r: set<string>)
    ensures r == skills + KeptItems(items)
  {
    r := skills;
    for i := 0 to |items|
      invariant r == skills + KeptItems(items[..i])
    {
      KeptStep(skills, items, i);
      var skill := Strip(items[i]);
      if 2 < |skill| && |skill| < 50 {
        r := r + {skill};
      }
    }
    PrefixWhole(items);
  }

  /** One more candidate adds its stripped form when that has a reasonable length. */
  lemma KeptStep(skills: set<string>, items: seq<string>, i: nat)
    requires i < |items|
    ensures var skill := Strip(items[i]);
      skills + KeptItems(items[..i + 1])
      == if ReasonableLength(skill) then (skills + KeptItems(items[..i])) + {skill} else skills + KeptItems(items[..i])
  {
    PrefixStep(items, i);
    assert KeptItems(items[..i + 1]) == KeptItems(items[..i]) + KeptOf(items[i]);
  }

  /** The free-form skills of a skills section: bullet items first, then comma items. */
  function FreeFormSkills(section: string): set<string> {
    KeptItems(BulletItems(section, 0)) + KeptItems(CommaItems(section, 0))
  }

  /** `_find_section_content(text, 'skills')`, which searches the skills keywords. */
  function SkillsSection(text: string): string {
    ContentFrom(text, Keywords(SectionKind.Skills), 0)
  }

  lemma SkillsSectionIsSectionContent(text: string)
    ensures SectionContent(text, "skills") == SkillsSection(text)
  {
    assert KindNamed("skills") == Some(SectionKind.Skills);
  }

  /** The vocabulary hits in `text` together with the free-form skills of a non-empty `section`. */
  function SkillsFrom(vocabulary: seq<string>, section: string, text: string): set<string> {
    VocabularyHits(vocabulary, Lower(text))
      + (if section != "" then FreeFormSkills(section) else {})
  }

  /** The skill set `_extract_skills` returns (the list built from it has no order worth keeping). */
  function SkillSet(text: string): set<string> {
    SkillsFrom(Flatten(SkillCategories), SkillsSection(text), text)
  }

  /** The two `findall` loops over a non-empty skills section. */
  method AddFreeForm(skills: set<string>, section: string) returns (r: set<string>)
    ensures r == skills + FreeFormSkills(section)
  {
    r := AddKept(skills, BulletItems(section, 0));
    r := AddKept(r, CommaItems(section, 0));
  }

  /** `_extract_skills`. */
  method ExtractSkills(text: string) returns (skills: set<string>)
    ensures skills == SkillSet(text)
  {
    var textLower := Lower(text);
    skills := ScanVocabulary(SkillCategories, textLower);
    var skillsSection := FindSectionContent(text, "skills");
    SkillsSectionIsSectionContent(text);
    if skillsSection != "" {
      skills := AddFreeForm(skills, skillsSection);
    }
  }

  // ---------------------------------------------------------------------------
  // Properties

  /** A skill kept from candidates written in `t` is stripped, free of separators and written in `t`. */
  lemma KeptFromCandidates(t: string, items: seq<string>, s: string)
    requires forall i :: 0 <= i < |items| ==> Contains(t, items[i])
    requires forall i :: 0 <= i < |items| ==> forall k :: 0 <= k < |items[i]| ==> FieldChar(items[i][k])
    requires s in KeptItems(items)
    ensures Strip(s) == s && ReasonableLength(s)
    ensures Contains(t, s)
    ensures forall k :: 0 <= k < |s| ==> FieldChar(s[k])
  {
    var i := KeptItemOrigin(items, s);
    StripIdempotent(items[i]);
    StripContained(items[i]);
    ContainsTrans(t, items[i], s);
    FieldCharsInside(items[i], s);
  }

  /** Every free-form skill is stripped, of reasonable length, free of commas and newlines, and written in the section. */
  lemma FreeFormSkillShape(section: string, s: string)
    requires s in FreeFormSkills(section)
    ensures Strip(s) == s && ReasonableLength(s)
    ensures Contains(section, s)
    ensures forall k :: 0 <= k < |s| ==> FieldChar(s[k])
  {
    if s in KeptItems(BulletItems(section, 0)) {
      KeptFromCandidates(section, BulletItems(section, 0), s);
    } else {
      KeptFromCandidates(section, CommaItems(section, 0), s);
    }
  }

  /** Skills drawn from the vocabulary and from a section written in `text` are written in `text`, ignoring ASCII case. */
  lemma SkillsFromOccur(vocabulary: seq<string>, section: string, text: string, s: string)
    requires Contains(text, section)
    requires s in SkillsFrom(vocabulary, section, text)
    ensures ContainsCI(text, s)
  {
    if s !in VocabularyHits(vocabulary, Lower(text)) {
      FreeFormSkillShape(section, s);
      ContainsTrans(text, section, s);
      ContainsLower(text, s);
    }
  }

  /** Every extracted skill is written in the resume text, ignoring ASCII case. */
  lemma SkillsOccurInText(text: string, s: string)
    requires s in SkillSet(text)
    ensures ContainsCI(text, s)
  {
    SkillsFromOccur(Flatten(SkillCategories), SkillsSection(text), text, s);
  }

  /** Every vocabulary skill found in the text is reported, whatever the skills section says. */
  lemma VocabularyFound(text: string, c: nat, j: nat)
    requires c < |SkillCategories| && j < |SkillCategories[c]|
    requires ContainsCI(text, SkillCategories[c][j])
    ensures SkillCategories[c][j] in SkillSet(text)
  {
    FlattenMember(SkillCategories, c, j);
  }

  /** A text without a skills section yields only vocabulary skills. */
  lemma NoSectionOnlyVocabulary(text: string)
    requires SkillsSection(text) == ""
    ensures forall s :: s in SkillSet(text) ==> s in Flatten(SkillCategories)
  {
  }
}
