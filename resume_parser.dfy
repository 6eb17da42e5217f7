/**
  The text-level part of `ResumeParser.parse_file`: the file checks that run
  before decoding, and the assembly of the parsed record from the decoded
  text. Decoding a PDF or DOCX file is outside the model: the text the
  decoder produced, or its failure, is a parameter.
*/
module ResumeParser {
  import opened Wrappers
  import opened Text
  import opened Models
  import opened SectionSegmenter
  import opened SkillExtractor
  import opened EntryExtractor

  // ---------------------------------------------------------------------------
  // os.path.splitext

  /** Some character of `s[lo..hi]` is not a dot. */
  predicate HasNonDot(s: string, lo: nat, hi: nat)
    requires lo <= hi <= |s|
  {
    exists k :: lo <= k < hi && s[k] != '.'
  }

  /**
    The extension part of `os.path.splitext(name)` on POSIX paths: from the
    last dot of the final path component to the end, provided that component
    has a character other than a dot before it (so `.bashrc` has none);
    otherwise empty.
  */
  function Extension(name: string): (r: string)
    ensures r == "" || (r[0] == '.' && EndsWith(name, r))
    ensures forall k :: 0 < k < |r| ==> r[k] != '.' && r[k] != '/'
  {
    var start := match LastIndexOfChar(name, '/', 0, |name|)
      case Some(i) => i + 1
      case None => 0;
    match LastIndexOfChar(name, '.', start, |name|)
    case Some(dot) => if HasNonDot(name, start, dot) then name[dot..] else ""
    case None => ""
  }

  /** A stem ending in an ordinary character, a dot and a dot-free suffix: the suffix is the extension. */
  lemma ExtensionOfStemAndSuffix(stem: string, suffix: string)
    requires stem != [] && stem[|stem| - 1] != '.' && stem[|stem| - 1] != '/'
    requires forall k :: 0 <= k < |suffix| ==> suffix[k] != '.' && suffix[k] != '/'
    ensures Extension(stem + "." + suffix) == "." + suffix
  {
    var name := stem + "." + suffix;
    var dot := |stem|;
    assert name[dot] == '.';
    assert forall k :: dot < k < |name| ==> name[k] == suffix[k - dot - 1];
    var start := match LastIndexOfChar(name, '/', 0, |name|)
      case Some(i) => i + 1
      case None => 0;
    assert start <= |stem| - 1 by {
      match LastIndexOfChar(name, '/', 0, |name|)
      case Some(i) =>
        assert name[i] == '/';
        assert i < |stem| - 1 by {
          assert name[|stem| - 1] == stem[|stem| - 1];
          assert i != dot;
        }
      case None =>
    }
    assert LastIndexOfChar(name, '.', start, |name|) == Some(dot);
    assert name[|stem| - 1] == stem[|stem| - 1];
    assert HasNonDot(name, start, dot);
    assert name[dot..] == "." + suffix;
  }

  /** A name made of a dot and a dot-free suffix (a hidden file such as `.pdf`) has no extension. */
  lemma HiddenFileHasNoExtension(suffix: string)
    requires forall k :: 0 <= k < |suffix| ==> suffix[k] != '.' && suffix[k] != '/'
    ensures Extension("." + suffix) == ""
  {
    var name := "." + suffix;
    assert forall k :: 0 < k < |name| ==> name[k] == suffix[k - 1];
    assert name[0] == '.';
    assert LastIndexOfChar(name, '/', 0, |name|).None?;
  }

  // ---------------------------------------------------------------------------
  // _validate_file

  /** `MAX_FILE_SIZE_MB * 1024 * 1024`. */
  const MaxFileBytes: int := MaxFileSizeMb * 1024 * 1024

  /** The lower-cased extension the parser dispatches on. */
  function FileType(name: string): string {
    Lower(Extension(name))
  }

  /**
    `_validate_file`: a file passes exactly when it is at most 10 MiB and its
    lower-cased extension is `.pdf` or `.docx`.
  */
  function ValidateFile(file: UploadedFile): (r: bool)
    ensures r <==> file.size <= 10485760 && (FileType(file.name) == ".pdf" || FileType(file.name) == ".docx")
  {
    file.size <= MaxFileBytes && FileType(file.name) in SupportedFormats
  }

  /** A small enough file whose name ends in `.pdf` or `.docx`, in any case, passes. */
  lemma ValidateFileAccepts(stem: string, suffix: string, size: int)
    requires stem != [] && stem[|stem| - 1] != '.' && stem[|stem| - 1] != '/'
    requires Lower(suffix) == "pdf" || Lower(suffix) == "docx"
    requires size <= MaxFileBytes
    ensures ValidateFile(UploadedFile(stem + "." + suffix, size))
  {
    var name := stem + "." + suffix;
    LowerIsLetters(suffix);
    ExtensionOfStemAndSuffix(stem, suffix);
    DottedFormat(suffix);
    assert FileType(name) == Lower("." + suffix);
  }

  /** A dot and a suffix that lower-cases to `pdf` or `docx` lower-case to a supported format. */
  lemma DottedFormat(suffix: string)
    requires Lower(suffix) == "pdf" || Lower(suffix) == "docx"
    ensures Lower("." + suffix) in SupportedFormats
  {
    LowerDotted(suffix);
    var lowered := Lower(suffix);
    if lowered == "pdf" {
      assert "." + lowered == ".pdf";
    } else {
      assert "." + lowered == ".docx";
    }
  }

  /** A text that lower-cases to `pdf` or `docx` is made of letters. */
  lemma LowerIsLetters(suffix: string)
    requires Lower(suffix) == "pdf" || Lower(suffix) == "docx"
    ensures forall k :: 0 <= k < |suffix| ==> suffix[k] != '.' && suffix[k] != '/'
  {
    forall k | 0 <= k < |suffix| ensures suffix[k] != '.' && suffix[k] != '/' {
      assert IsLetter(Lower(suffix)[k]);
    }
  }

  lemma LowerDotted(suffix: string)
    ensures Lower("." + suffix) == "." + Lower(suffix)
  {
    assert forall k :: 0 < k <= |suffix| ==> ("." + suffix)[k] == suffix[k - 1];
  }

  /** A file with no extension, such as a hidden `.pdf` file, is refused whatever its size. */
  lemma ValidateFileRefusesHidden(suffix: string, size: int)
    requires forall k :: 0 <= k < |suffix| ==> suffix[k] != '.' && suffix[k] != '/'
    ensures !ValidateFile(UploadedFile("." + suffix, size))
  {
    HiddenFileHasNoExtension(suffix);
  }

  // ---------------------------------------------------------------------------
  // parse_file

  /** `len(raw_text.strip()) < 50` rejects the decoded text. */
  const MinTextLength: nat := 50

  /** `sections.get(kind, '')`. */
  function SectionOr(sections: map<SectionKind, string>, k: SectionKind): (r: string)
    ensures k in sections ==> r == sections[k]
    ensures k !in sections ==> r == ""
  {
    if k in sections then sections[k] else ""
  }

  /**
    `parse_file` after decoding. `decoded` is the text the PDF or DOCX
    decoder produced for this file, or `None` when the decoder raised. The
    result is `None` when the file fails validation, when decoding failed,
    or when the stripped text is shorter than 50 characters; otherwise it
    holds the text, its sections, its skills and the entries extracted from
    the experience, education and projects sections.
  */
  method ParseFile(file: UploadedFile, decoded: Option<string>) returns (r: Option<ResumeData>)
    ensures r.Some? <==> ValidateFile(file) && decoded.Some? && |Strip(decoded.value)| >= MinTextLength
    ensures r.Some? ==>
      var raw, d := decoded.value, r.value;
      && d.rawText == raw
      && d.fileType == FileType(file.name) && d.fileName == file.name
      && IsSectionMap(raw, d.sections)
      && d.skills == SkillSet(raw)
      && d.experience == ExperienceEntries(SectionOr(d.sections, Experience))
      && d.education == EducationEntries(SectionOr(d.sections, Education))
      && d.projects == ProjectEntries(SkillCategories, SectionOr(d.sections, Projects))
  {
    if !ValidateFile(file) {
      return None;
    }
    var fileType := FileType(file.name);
    if decoded.None? {
      return None;
    }
    var raw := decoded.value;
    if |Strip(raw)| < MinTextLength {
      return None;
    }
    var sections := ParseSections(raw);
    var skills := ExtractSkills(raw);
    var experience := ExtractExperience(SectionOr(sections, Experience));
    var education := ExtractEducation(SectionOr(sections, Education));
    var projects := ExtractProjects(SectionOr(sections, Projects));
    r := Some(ResumeData(raw, sections, skills, experience, education, projects, fileType, file.name));
  }
}
