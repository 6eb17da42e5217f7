/**
  What the entry extractors promise: the fields of each record, where each
  record comes from, and the order records keep.
*/
module EntryProperties {
  import opened Text
  import opened Models
  import opened EntryExtractor

  /**
    An experience record: the description is the stripped entry, the title
    its leading comma-free field, the company a comma- and newline-free slice
    of the entry, and the dates either both empty or a four-digit start with
    a four-digit, `present` or `current` end.
  */
  lemma ExperienceOfShape(entry: string)
    ensures var e := ExperienceOf(entry);
      && e.description == Strip(entry)
      && IsLeadingField(Strip(entry), e.title, ",\n")
      && Contains(entry, e.company) && (forall k :: 0 <= k < |e.company| ==> FieldChar(e.company[k]))
      && ((e.startDate == "" && e.endDate == "")
          || (|e.startDate| == 4 && AllDigits(e.startDate) && IsEndDate(e.endDate)))
  {
    LeadingFieldShape(entry, ",\n");
    OrganisationShape(entry);
    DateRangeShape(entry);
  }

  /**
    An education record: the description is the stripped entry, the degree
    a stripped comma-free field that is empty exactly when the program's
    degree pattern (with its one-letter gap) matches nowhere, the institution a slice of the entry, and
    the year the first four consecutive digits of the entry, or empty when
    there are none.
  */
  lemma EducationOfShape(entry: string)
    ensures var e := EducationOf(entry);
      && e.description == Strip(entry)
      && StrippedField(e.degree)
      && (e.degree == "" <==> forall q :: 0 <= q <= |entry| ==> DegreePhraseAt(entry, q, 1).None?)
      && Contains(entry, e.institution)
      && IsFirstYear(entry, e.year)
  {
    DegreeShape(entry, 1);
    OrganisationShape(entry);
    YearShape(entry);
  }

  /**
    A project record: the description is the stripped entry, the name its
    leading field before any colon or newline, and the technologies exactly
    the vocabulary words the entry mentions, ignoring case, in vocabulary
    order.
  */
  lemma ProjectOfShape(cats: seq<seq<string>>, entry: string)
    ensures var p := ProjectOf(cats, entry);
      && p.description == Strip(entry)
      && IsLeadingField(Strip(entry), p.name, ":\n")
      && p.technologies == Kept(Flatten(cats), Mentions(entry))
      && forall w :: w in p.technologies <==> w in Flatten(cats) && ContainsCI(entry, w)
  {
    LeadingFieldShape(entry, ":\n");
    KeptMembers(Flatten(cats), Mentions(entry));
  }

  /**
    Each extracted record comes from a split piece whose stripped text has at
    least `min` characters, and records appear in the order of their pieces.
  */
  lemma {:induction false} RecordsFromPieces<R>(pieces: seq<string>, min: nat, build: string -> R, i1: nat, i2: nat)
      returns (j1: nat, j2: nat)
    requires i1 < i2 < |Records(Kept(pieces, LongEnough(min)), build)|
    ensures j1 < j2 < |pieces|
    ensures Records(Kept(pieces, LongEnough(min)), build)[i1] == build(pieces[j1]) && |Strip(pieces[j1])| >= min
    ensures Records(Kept(pieces, LongEnough(min)), build)[i2] == build(pieces[j2]) && |Strip(pieces[j2])| >= min
  {
    var keep := LongEnough(min);
    j1, j2 := KeptOrder(pieces, keep, i1, i2);
    var a := KeptSound(pieces, keep, i1);
    var b := KeptSound(pieces, keep, i2);
  }

  /** Each record comes from a piece whose stripped text has at least `min` characters. */
  lemma RecordFromPiece<R>(pieces: seq<string>, min: nat, build: string -> R, i: nat) returns (j: nat)
    requires i < |Records(Kept(pieces, LongEnough(min)), build)|
    ensures j < |pieces| && |Strip(pieces[j])| >= min
    ensures Records(Kept(pieces, LongEnough(min)), build)[i] == build(pieces[j])
  {
    j := KeptSound(pieces, LongEnough(min), i);
  }

  /** Each experience record comes from a piece of at least 20 stripped characters. */
  lemma ExperienceFromPiece(text: string, i: nat) returns (j: nat)
    requires i < |ExperienceEntries(text)|
    ensures j < |Pieces(ExperienceSplit, text)|
    ensures |Strip(Pieces(ExperienceSplit, text)[j])| >= MinExperienceLength
    ensures ExperienceEntries(text)[i] == ExperienceOf(Pieces(ExperienceSplit, text)[j])
  {
    j := RecordFromPiece(Pieces(ExperienceSplit, text), MinExperienceLength, ExperienceOf, i);
  }

  /** Each education record comes from a blank-line-separated piece of at least 10 stripped characters. */
  lemma EducationFromPiece(text: string, i: nat) returns (j: nat)
    requires i < |EducationEntries(text)|
    ensures j < |Pieces(EducationSplit, text)|
    ensures |Strip(Pieces(EducationSplit, text)[j])| >= MinEducationLength
    ensures EducationEntries(text)[i] == EducationOf(Pieces(EducationSplit, text)[j])
  {
    j := RecordFromPiece(Pieces(EducationSplit, text), MinEducationLength, EducationOf, i);
  }

  /** Each project record comes from a piece of at least 15 stripped characters. */
  lemma ProjectFromPiece(cats: seq<seq<string>>, text: string, i: nat) returns (j: nat)
    requires i < |ProjectEntries(cats, text)|
    ensures j < |Pieces(ProjectsSplit, text)|
    ensures |Strip(Pieces(ProjectsSplit, text)[j])| >= MinProjectLength
    ensures ProjectEntries(cats, text)[i] == ProjectOf(cats, Pieces(ProjectsSplit, text)[j])
  {
    var pieces := Pieces(ProjectsSplit, text);
    var build := ProjectBuilder(cats);
    assert ProjectEntries(cats, text) == Records(Kept(pieces, LongEnough(MinProjectLength)), build);
    j := RecordFromPiece(pieces, MinProjectLength, build, i);
  }

  /** Records keep split order: a later experience record comes from a later piece. */
  lemma ExperienceInSplitOrder(text: string, i1: nat, i2: nat) returns (j1: nat, j2: nat)
    requires i1 < i2 < |ExperienceEntries(text)|
    ensures j1 < j2 < |Pieces(ExperienceSplit, text)|
    ensures ExperienceEntries(text)[i1] == ExperienceOf(Pieces(ExperienceSplit, text)[j1])
    ensures ExperienceEntries(text)[i2] == ExperienceOf(Pieces(ExperienceSplit, text)[j2])
  {
    j1, j2 := RecordsFromPieces(Pieces(ExperienceSplit, text), MinExperienceLength, ExperienceOf, i1, i2);
  }

  /** A text whose pieces are all shorter than `min` once stripped (the empty text among them) yields no records. */
  lemma NoLongPieceNoRecords<R>(pieces: seq<string>, min: nat, build: string -> R)
    requires forall i :: 0 <= i < |pieces| ==> |Strip(pieces[i])| < min
    ensures Records(Kept(pieces, LongEnough(min)), build) == []
  {
    KeptNone(pieces, LongEnough(min));
  }
}
