/**
  The records and constant tables the parser and the response parsers share:
  the section taxonomy and its heading keywords, the skill vocabulary grouped by
  category, the upload limits, and the parsed-resume / context / result records.
*/
module Models {
  import opened Wrappers

  /** The ten section kinds, in the order the taxonomy lists them. */
  datatype SectionKind =
    | Contact | Summary | Experience | Education | Skills
    | Projects | Certifications | Achievements | Publications | Volunteer

  const Kinds: seq<SectionKind> :=
    [Contact, Summary, Experience, Education, Skills,
     Projects, Certifications, Achievements, Publications, Volunteer]

  /** Position of a kind in the taxonomy: ties between equal offsets are ordered by it. */
  function KindIndex(k: SectionKind): (r: nat)
    ensures r < |Kinds|
  {
    match k
    case Contact => 0
    case Summary => 1
    case Experience => 2
    case Education => 3
    case Skills => 4
    case Projects => 5
    case Certifications => 6
    case Achievements => 7
    case Publications => 8
    case Volunteer => 9
  }

  /** Every kind is listed in the taxonomy, at its index. */
  lemma KindListed(k: SectionKind)
    ensures Kinds[KindIndex(k)] == k
  {
  }

  /** The taxonomy lists each kind once, so `KindIndex` inverts indexing into `Kinds`. */
  lemma KindsIndexed(i: nat)
    requires i < |Kinds|
    ensures KindIndex(Kinds[i]) == i
  {
  }

  /** The dictionary key the program uses for a kind. */
  function KindName(k: SectionKind): string {
    match k
    case Contact => "contact"
    case Summary => "summary"
    case Experience => "experience"
    case Education => "education"
    case Skills => "skills"
    case Projects => "projects"
    case Certifications => "certifications"
    case Achievements => "achievements"
    case Publications => "publications"
    case Volunteer => "volunteer"
  }

  /** The heading keywords of a kind, in the order the alternation tries them. */
  function Keywords(k: SectionKind): (ws: seq<string>)
    ensures |ws| > 0 && forall j :: 0 <= j < |ws| ==> |ws[j]| > 0
  {
    match k
    case Contact => ["contact", "personal", "header"]
    case Summary => ["summary", "objective", "profile", "about"]
    case Experience => ["experience", "work", "employment", "professional"]
    case Education => ["education", "academic", "qualifications"]
    case Skills => ["skills", "technical", "competencies"]
    case Projects => ["projects", "portfolio", "work samples"]
    case Certifications => ["certifications", "certificates", "credentials"]
    case Achievements => ["achievements", "awards", "honors"]
    case Publications => ["publications", "papers", "research"]
    case Volunteer => ["volunteer", "community", "service"]
  }

  /** The kind whose dictionary key is `name`, if any. */
  function KindNamed(name: string): (r: Option<SectionKind>)
    ensures r.Some? ==> KindName(r.value) == name
    ensures r.None? ==> forall k: SectionKind :: KindName(k) != name
  {
    if name == "contact" then Some(Contact)
    else if name == "summary" then Some(Summary)
    else if name == "experience" then Some(Experience)
    else if name == "education" then Some(Education)
    else if name == "skills" then Some(Skills)
    else if name == "projects" then Some(Projects)
    else if name == "certifications" then Some(Certifications)
    else if name == "achievements" then Some(Achievements)
    else if name == "publications" then Some(Publications)
    else if name == "volunteer" then Some(Volunteer)
    else None
  }

  /** The skill vocabulary, one list per category, in category order. */
  const SkillCategories: seq<seq<string>> := [
    ["python", "java", "javascript", "c++", "c#", "go", "rust", "php", "ruby", "swift", "kotlin"],
    ["html", "css", "react", "angular", "vue", "node.js", "django", "flask", "express"],
    ["sql", "mysql", "postgresql", "mongodb", "redis", "oracle", "sqlite"],
    ["aws", "azure", "gcp", "docker", "kubernetes", "terraform", "jenkins"],
    ["pandas", "numpy", "scikit-learn", "tensorflow", "pytorch", "r", "matplotlib"],
    ["git", "jira", "confluence", "slack", "figma", "photoshop", "excel"],
    ["english", "spanish", "french", "german", "chinese", "japanese", "korean"]
  ]

  /** The category lists concatenated, in iteration order. */
  function Flatten(cats: seq<seq<string>>): seq<string>
  {
    if cats == [] then [] else Flatten(cats[..|cats| - 1]) + cats[|cats| - 1]
  }

  /** Flattening one more category appends its words. */
  lemma FlattenSnoc(cats: seq<seq<string>>, c: nat)
    requires c < |cats|
    ensures Flatten(cats[..c + 1]) == Flatten(cats[..c]) + cats[c][..|cats[c]|]
  {
    assert cats[..c + 1][..c] == cats[..c];
    assert cats[c][..|cats[c]|] == cats[c];
  }

  lemma FlattenMember(cats: seq<seq<string>>, c: nat, j: nat)
    requires c < |cats| && j < |cats[c]|
    ensures cats[c][j] in Flatten(cats)
    decreases |cats|
  {
    if c < |cats| - 1 {
      assert cats[..|cats| - 1][c] == cats[c];
      FlattenMember(cats[..|cats| - 1], c, j);
    }
  }

  const MaxFileSizeMb: nat := 10
  const SupportedFormats: seq<string> := [".pdf", ".docx"]

  datatype ExperienceEntry = ExperienceEntry(
    title: string, company: string, startDate: string, endDate: string, description: string)

  datatype EducationEntry = EducationEntry(
    degree: string, institution: string, year: string, description: string)

  datatype ProjectEntry = ProjectEntry(
    name: string, description: string, technologies: seq<string>)

  /** An upload as the parser sees it before decoding: its name and its size in bytes. */
  datatype UploadedFile = UploadedFile(name: string, size: int)

  datatype ResumeData = ResumeData(
    rawText: string,
    sections: map<SectionKind, string>,
    skills: set<string>,
    experience: seq<ExperienceEntry>,
    education: seq<EducationEntry>,
    projects: seq<ProjectEntry>,
    fileType: string,
    fileName: string)

  /** A user context entry; the two timestamps are not read by any modelled code. */
  datatype ContextEntry = ContextEntry(id: Option<int>, category: string, content: string)

  /**
    The parsed model response. `confidenceText` is the CONFIDENCE_SCORE section
    text from which the program computes its floating-point score.
  */
  datatype OptimizationResult = OptimizationResult(
    originalResume: string,
    optimizedResume: string,
    changesMade: seq<string>,
    suggestions: seq<string>,
    confidenceText: string,
    processingTime: real)
}
