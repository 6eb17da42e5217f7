# Resume Tailor text core in Dafny

This project models the text-processing core of the AI Resume Tailor, a
Streamlit application that reads a resume, finds its sections and entries,
and rewrites it with a generative language model. Three parts are modelled:

- **The resume parser** (`src/resume_parser.py`). It checks an upload's size
  and extension. It segments the decoded text into the ten section kinds of
  the taxonomy. It collects skills from a fixed vocabulary and from the skills
  section. It splits the experience, education and projects sections into
  entries and reads their fields with regular expressions.
- **The utilities** (`src/utils.py`). These cover text cleaning, keyword
  extraction and Jaccard similarity, the e-mail and phone checks, contact
  extraction, truncation, keyword highlighting and the resume content check.
- **The model-response parsers** (`src/ai_processor.py`). These cover context
  formatting, section extraction from the model's answer, list parsing and
  the insights parser.

Every regular expression is written as a hand-made scanner. Each follows
Python's leftmost and backtracking semantics for the pattern as the program
writes it. Two patterns look mistaken (see "## Findings"). For each of them a
corrected scanner stands beside the as-written one. The corrected scanners only
serve as the intended halves of those findings. The modelled pipeline uses the
as-written scanners. Case-insensitive matching is ASCII-only (`Text.Lower`).

Modules and files:

- `wrappers.dfy`: `Option`.
- `text.dfy`: character classes, ASCII case mapping, `str.strip`, `str.split` and `str.join`, containment.
- `models.dfy`: the section taxonomy, the skill vocabulary, the upload limits from `config.py` and the record types.
- `sections.dfy`: `_parse_sections` and `_find_section_content`.
- `skills.dfy`: `_extract_skills`.
- `entries.dfy` and `entry_properties.dfy`: `_extract_experience`, `_extract_education` and `_extract_projects`.
- `resume_parser.dfy`: `os.path.splitext`, `_validate_file` and `parse_file`.
- `utils.dfy` and `contact.dfy`: the utilities.
- `ai_processor.dfy`: the response parsers.

Loops in the source are `method`s with loop invariants. Each method's
`ensures` ties its result to a specification function, and lemmas state
what those functions promise.

Where a reader might expect otherwise, the model follows the code:

- A section kind that has several headings keeps only the span of its last
  heading (`sections[name] = ...` overwrites). The spans are not concatenated.
- The experience title is the whole first line up to a comma. For
  "Software Engineer at Acme Corp" it is that whole string, not
  "Software Engineer".
- The website pattern also matches inside e-mail addresses. For
  `a.bc@d.ef` the website is `a.bc` (`Contact.WebsiteInsideEmail`).

## Model

| member | source | states |
|---|---|---|
| Models.KindNamed | src/models.py:87-98 | the dictionary key names exactly one kind, or none of the ten |
| Models.KindsIndexed | src/resume_parser.py:125-136 | the taxonomy lists each kind once, in pattern-dictionary order |
| Models.FlattenMember | src/models.py:101-109 | every vocabulary word of every category is in the flattened vocabulary |
| SectionSegmenter.HeadingStarts | src/resume_parser.py:141 | `finditer` of one heading pattern: increasing offsets, each a heading, none skipped before the first, empty iff the kind's keywords never occur |
| SectionSegmenter.StartTableRow | src/resume_parser.py:139-143 | each kind's row of match offsets is increasing, within the text, and empty exactly when none of its keywords occurs |
| SectionSegmenter.AllMatchesKinds | src/resume_parser.py:139-143 | a kind has a recorded position exactly when one of its keywords occurs in the lowered text |
| SectionSegmenter.StableSortSorts | src/resume_parser.py:146 | the stable sort by offset orders positions by offset, ties in taxonomy order |
| SectionSegmenter.SortedIsUnique | src/resume_parser.py:146 | two sorted permutations of the positions are equal, so the sorted order is determined |
| SectionSegmenter.SortedMatches | src/resume_parser.py:139-146 | the sorted positions are a permutation of all matches, sorted, within the text, with the same kinds |
| SectionSegmenter.SpanText | src/resume_parser.py:150-157 | a section body is a stripped piece of the text |
| SectionSegmenter.LastOf | src/resume_parser.py:158 | the position whose span a kind keeps is the last one of that kind |
| SectionSegmenter.ParseSections | src/resume_parser.py:119-160 | the result is the section map: keys are the kinds that occur, and each value is the stripped span of the kind's last heading up to the next heading |
| SectionSegmenter.SectionMapUnique | src/resume_parser.py:149-158 | the section map of a text is unique |
| SectionSegmenter.TiedOffsetsGiveEmptySpan | src/resume_parser.py:146-157 | two headings at one offset are ordered by taxonomy, and the first gets an empty span |
| SectionSegmenter.NoHeadingNoSections | src/resume_parser.py:139-160 | there are no positions exactly when no kind's keyword occurs |
| SectionSegmenter.BodyEnd | src/resume_parser.py:300 | the lazy body stops at the first `\n` followed by a word of two or more letters in either case (IGNORECASE), optional spaces and a colon, or at the end of the text |
| SectionSegmenter.SectionSearch | src/resume_parser.py:300-301 | `re.search` finds the leftmost heading position whose body matches, or reports that none exists |
| SectionSegmenter.ContentFrom | src/resume_parser.py:299-305 | the first pattern that matches gives a stripped piece of the text; when none matches the result is empty |
| SectionSegmenter.FindSectionContent | src/resume_parser.py:295-305 | the loop over the patterns equals the specification function |
| SectionSegmenter.SectionContentShape | src/resume_parser.py:295-305 | section content is stripped, occurs in the text, and is empty when no pattern matches |
| SkillExtractor.VocabularyHits | src/resume_parser.py:168-171 | a vocabulary word is found iff its lower-case form occurs in the lowered text |
| SkillExtractor.ScanVocabulary | src/resume_parser.py:167-171 | the nested loop adds exactly the vocabulary words that occur |
| SkillExtractor.BulletItems | src/resume_parser.py:178 | each bullet capture is non-empty, comma- and newline-free, and occurs in the section |
| SkillExtractor.CommaItems | src/resume_parser.py:179 | each captured piece before a comma or newline is non-empty, has no comma or newline, and occurs in the section |
| SkillExtractor.KeptItemOrigin | src/resume_parser.py:184-187 | every kept skill is a stripped candidate of length 3 to 49 |
| SkillExtractor.KeptItemsComplete | src/resume_parser.py:184-187 | every stripped candidate of length 3 to 49 is kept |
| SkillExtractor.ExtractSkills | src/resume_parser.py:162-189 | the method computes the skill set |
| SkillExtractor.FreeFormSkillShape | src/resume_parser.py:176-187 | a free-form skill is stripped, of reasonable length, comma-free and taken from the section |
| SkillExtractor.SkillsOccurInText | src/resume_parser.py:162-189 | every extracted skill occurs in the resume, ignoring case |
| SkillExtractor.VocabularyFound | src/resume_parser.py:168-171 | every vocabulary word that occurs, ignoring case, is extracted |
| SkillExtractor.NoSectionOnlyVocabulary | src/resume_parser.py:173-175 | without a skills section only vocabulary words are extracted |
| EntryExtractor.SplitSpans | src/resume_parser.py:198 | `re.split` pieces are consecutive, cover the text, hold no separator, and are joined by separators |
| EntryExtractor.KeptSound | src/resume_parser.py:200-202 | every kept piece is an input piece that passes the length test |
| EntryExtractor.KeptComplete | src/resume_parser.py:200-202 | every input piece that passes the length test is kept |
| EntryExtractor.KeptOrder | src/resume_parser.py:200-224 | kept pieces keep their input order |
| EntryExtractor.LeadingFieldShape | src/resume_parser.py:205 | the title or name is the stripped leading field of the stripped entry, up to the first stop character |
| EntryExtractor.OrganisationShape | src/resume_parser.py:206 | the company or institution is empty iff neither alternative matches anywhere; otherwise it is a comma-free piece of the entry |
| EntryExtractor.DateRangeShape | src/resume_parser.py:207 | the dates are both empty when no range matches, or a four-digit start year and an end of four digits, `present` or `current` |
| EntryExtractor.DegreeShape | src/resume_parser.py:242 | the degree is a stripped comma-free field, and empty iff the pattern matches nowhere |
| EntryExtractor.DegreeOfLeadingWord | src/resume_parser.py:242 | an entry that starts with a degree word has a non-empty degree that starts the entry (corrected pattern) |
| EntryExtractor.DegreeAsWrittenMissesLeadingWord | src/resume_parser.py:242 | as written, `PhD` yields no degree while the corrected pattern finds one |
| EntryExtractor.DegreeAsWrittenNeedsRoom | src/resume_parser.py:242 | as written, no entry of at most three characters has a degree |
| EntryExtractor.YearShape | src/resume_parser.py:244 | the year is the first four-digit run of the entry, or empty when there is none |
| EntryExtractor.MentionedTechnologies | src/resume_parser.py:286-289 | the technologies are the vocabulary words the entry mentions, in vocabulary order |
| EntryExtractor.BuildExperience | src/resume_parser.py:200-224 | one record per piece of at least 20 stripped characters, in order |
| EntryExtractor.ExtractExperience | src/resume_parser.py:191-226 | the method computes the experience entries; empty text gives none |
| EntryExtractor.ExtractEducation | src/resume_parser.py:228-261 | the method computes the education entries, whose degrees come from the program's pattern; empty text gives none |
| EntryExtractor.ExtractProjects | src/resume_parser.py:263-293 | the method computes the project entries; empty text gives none |
| EntryProperties.ExperienceOfShape | src/resume_parser.py:205-222 | an experience record: description is the stripped entry, title the leading field, company a piece of the entry, dates empty or well-formed |
| EntryProperties.EducationOfShape | src/resume_parser.py:242-257 | an education record: the description is the stripped entry; the degree is a stripped comma-free field, empty iff the program's pattern (letter, then a degree word at least one character later) matches nowhere; the institution occurs in the entry; the year is the first four-digit run |
| EntryProperties.ProjectOfShape | src/resume_parser.py:277-289 | a project record: name up to a colon, and technologies exactly the mentioned vocabulary words |
| EntryProperties.ExperienceFromPiece | src/resume_parser.py:198-224 | each experience record comes from a split piece of at least 20 stripped characters |
| EntryProperties.EducationFromPiece | src/resume_parser.py:235-259 | each education record comes from a blank-line piece of at least 10 stripped characters |
| EntryProperties.ProjectFromPiece | src/resume_parser.py:270-291 | each project record comes from a split piece of at least 15 stripped characters |
| EntryProperties.ExperienceInSplitOrder | src/resume_parser.py:198-226 | experience records appear in the order of their pieces |
| EntryProperties.NoLongPieceNoRecords | src/resume_parser.py:200-202 | when every piece is too short there are no records |
| ResumeParser.Extension | src/resume_parser.py:76 | the extension is empty or a dot plus a dot- and slash-free suffix of the name |
| ResumeParser.ExtensionOfStemAndSuffix | src/resume_parser.py:76 | `stem.suffix` has extension `.suffix` |
| ResumeParser.HiddenFileHasNoExtension | src/resume_parser.py:76 | a hidden name such as `.pdf` has no extension |
| ResumeParser.ValidateFile | src/resume_parser.py:68-81 | a file passes iff it is at most 10485760 bytes and its lower-cased extension is `.pdf` or `.docx` |
| ResumeParser.ValidateFileAccepts | src/resume_parser.py:68-81 | any small enough `stem.pdf` or `stem.docx`, in any case, passes |
| ResumeParser.ValidateFileRefusesHidden | src/resume_parser.py:76-79 | a hidden `.pdf` file is refused |
| ResumeParser.SectionOr | src/resume_parser.py:49-51 | `sections.get(kind, '')` |
| ResumeParser.ParseFile | src/resume_parser.py:24-66 | a record is returned iff the file is valid, decoding succeeded and the stripped text has 50 or more characters; its fields are the text, its section map, skills and entries, with education degrees from the program's pattern |
| Utils.CollapseSpaces | src/utils.py:18 | after collapsing, every whitespace character left is a space |
| Utils.CleanedHasNoNewline | src/utils.py:18-24 | no newline is left for the third substitution to match |
| Utils.CleanTextShape | src/utils.py:12-26 | cleaned text is stripped and made of word characters, spaces and the kept punctuation |
| Utils.CleanTextKeepsWordChars | src/utils.py:12-26 | cleaning keeps every word character, in order |
| Utils.WordRunsSound | src/utils.py:35 | every `\b\w+\b` match is a maximal word run |
| Utils.WordRunsComplete | src/utils.py:35 | every maximal word run is matched |
| Utils.KeywordMembership | src/utils.py:29-47 | a keyword is exactly a lowered word run that is long enough and not a stop word |
| Utils.Similarity | src/utils.py:50-64 | the similarity is a ratio between 0 and 1 |
| Utils.SimilaritySymmetric | src/utils.py:50-64 | the similarity is symmetric |
| Utils.SimilarityExtremes | src/utils.py:58-64 | the similarity is 1 iff the keyword sets are equal and non-empty, and 0 iff they are disjoint |
| Utils.ValidateEmailMatches | src/utils.py:86-89 | an address is valid iff the anchored pattern matches it, allowing one trailing newline |
| Utils.PhoneIgnoresSeparator | src/utils.py:92-97 | non-digit characters do not affect the phone check |
| Utils.PhoneOfDigits | src/utils.py:92-97 | a string of digits is a valid phone iff it has 7 to 15 digits |
| Utils.PrefixUpTo | src/utils.py:175 | Python slicing `text[:n]`, including negative `n` |
| Utils.TruncateText | src/utils.py:170-175 | short text is unchanged; long text is a prefix plus the suffix, exactly `max_length` long when the suffix fits |
| Utils.ReplaceAbsent | src/utils.py:186-187 | substitution without a match leaves the text unchanged |
| Utils.ReplacePresent | src/utils.py:186-187 | substitution with a match puts the replacement in the text |
| Utils.HighlightKeywords | src/utils.py:178-189 | empty text or no keywords gives the text back; otherwise each keyword is substituted in turn |
| Utils.HighlightedAbsent | src/utils.py:184-187 | keywords that do not occur leave the text unchanged |
| Utils.IssueListShape | src/utils.py:245-281 | each issue is reported exactly when its check fails; at most five issues, never the too-short one |
| Utils.ValidateResumeContent | src/utils.py:228-287 | short text gives only the too-short issue; otherwise the word count, the four keyword flags, the issues in check order, and validity iff at most two issues |
| Contact.RunWhile | src/utils.py:111 | a greedy character-class run ends at the first character outside the class |
| Contact.EmailSearchEmpty | src/utils.py:111-114 | no e-mail is found iff the pattern matches at no position |
| Contact.EmailSearchShape | src/utils.py:111-114 | a found e-mail occurs in the text and has a local part, `@`, a domain, a dot and a top-level part |
| Contact.EmailInIsValid | src/utils.py:111-114 | an e-mail found by the corrected pattern passes `validate_email` |
| Contact.EmailAsWrittenAdmitsBar | src/utils.py:111 | as written, the pattern extracts `a@b.c`, a vertical bar and `d` as one address |
| Contact.BarAddressInvalid | src/utils.py:86-89 | that address fails `validate_email` |
| Contact.MatchAtomsDigits | src/utils.py:117 | a phone match has as many digits as the pattern's digit atoms |
| Contact.PhoneDigitAtoms | src/utils.py:117 | the pattern has 10 digit atoms without the country code and 11 with it |
| Contact.PhoneInShape | src/utils.py:117-120 | a found phone occurs in the text, has 10 or 11 digits and passes `validate_phone` |
| Contact.LinkedinProfileShape | src/utils.py:123-126 | a LinkedIn result is `linkedin.com/in/` plus a handle taken from the text |
| Contact.LinkedinPubRewritten | src/utils.py:123-126 | a `linkedin.com/pub/` address is reported under `linkedin.com/in/` |
| Contact.GithubProfileShape | src/utils.py:129-132 | a GitHub result is `github.com/` plus a handle taken from the text |
| Contact.WebsiteInShape | src/utils.py:135-138 | a website result occurs in the text and is a name, a dot and at least two letters |
| Contact.WebsiteInsideEmail | src/utils.py:135-138 | for the address `a.bc@d.ef` the website is `a.bc` |
| Contact.ContactInfo | src/utils.py:100-108 | the result has exactly the five keys; the e-mail comes from the pattern as written |
| Contact.ContactEmailValid | src/utils.py:110-114 | the e-mail occurs in the text; when not empty it has a local part, `@`, a domain, a dot and a top-level part that may hold a vertical bar; one without a bar passes `validate_email` |
| Contact.ContactPhoneValid | src/utils.py:116-120 | the phone is empty or a valid phone from the text |
| Contact.ContactProfilesCanonical | src/utils.py:122-132 | the profiles are empty or in canonical form |
| Contact.ContactWebsiteInText | src/utils.py:134-138 | the website occurs in the text |
| Text.JoinSplit | src/ai_processor.py:167 | joining the split lines gives the text back |
| Text.SplitJoin | src/ai_processor.py:182 | splitting joined newline-free lines gives the lines back |
| AiProcessor.ItemOf | src/ai_processor.py:193-198 | an item never starts with a stripped bullet character |
| AiProcessor.ItemInLine | src/ai_processor.py:193-198 | an item is a piece of its line |
| AiProcessor.ItemsConcat | src/ai_processor.py:192-200 | items of consecutive lines concatenate in order |
| AiProcessor.ListItemsShape | src/ai_processor.py:184-202 | every list item is non-empty, bullet-free at its start, newline-free and a piece of the text |
| AiProcessor.ParseList | src/ai_processor.py:184-202 | the loop computes the list items |
| AiProcessor.Collected | src/ai_processor.py:171-180 | no collected line holds the header or another known header |
| AiProcessor.SectionText | src/ai_processor.py:182 | section text is stripped |
| AiProcessor.SectionMissing | src/ai_processor.py:171-182 | a missing header gives an empty section |
| AiProcessor.CollectedAfterPreamble | src/ai_processor.py:171-174 | lines before the header are ignored |
| AiProcessor.CollectedBody | src/ai_processor.py:176-180 | collection stops at the first line naming a known header |
| AiProcessor.SectionOfLayout | src/ai_processor.py:165-182 | for preamble, header line, body and stop line, the section is the stripped body |
| AiProcessor.ExtractSection | src/ai_processor.py:165-182 | the loop with its `break` computes the section text |
| AiProcessor.RunConcat | src/ai_processor.py:260-276 | the line loop runs over consecutive pieces in sequence |
| AiProcessor.PreambleIgnored | src/ai_processor.py:274-276 | lines before the first header change nothing |
| AiProcessor.InsightsIgnorePreamble | src/ai_processor.py:252-282 | a preamble without headers does not change the insights |
| AiProcessor.BodyAccumulates | src/ai_processor.py:274-276 | body lines accumulate under the current header |
| AiProcessor.LastSectionSaved | src/ai_processor.py:266-280 | a header and its body are saved as the body joined by newlines, overwriting an earlier equal header |
| AiProcessor.HeaderWithoutBody | src/ai_processor.py:266-273 | a header directly followed by another header is not saved |
| AiProcessor.RunWellFormed | src/ai_processor.py:258-276 | the loop keeps the insight state well formed |
| AiProcessor.InsightsShape | src/ai_processor.py:252-282 | every insight key is a stripped header line; every value is non-empty stripped body lines joined by newlines |
| AiProcessor.ParseInsightsResponse | src/ai_processor.py:252-282 | the loop computes the insights |
| AiProcessor.CategoriesMembers | src/ai_processor.py:122-126 | a category is a dictionary key iff some entry has it |
| AiProcessor.CategoriesDistinct | src/ai_processor.py:124-125 | no category is listed twice |
| AiProcessor.CategoriesPrefix | src/ai_processor.py:122-126 | categories are listed in order of first appearance |
| AiProcessor.ContentsConcat | src/ai_processor.py:126 | each category's contents keep input order |
| AiProcessor.EveryEntryFiled | src/ai_processor.py:122-132 | the blocks hold one bullet line per entry |
| AiProcessor.GroupByCategory | src/ai_processor.py:122-126 | the grouping loop gives the categories in first-appearance order and each category's contents |
| AiProcessor.AppendBlock | src/ai_processor.py:130-132 | one category's heading and bullet lines are appended |
| AiProcessor.BuildContextInfo | src/ai_processor.py:117-134 | no entries give the fixed sentence; otherwise the category blocks in first-appearance order |
| AiProcessor.ParseOptimizationResponse | src/ai_processor.py:136-163 | the resume section, or the original when it is empty; change and suggestion lists from their sections; the confidence section text; and the processing time |

## Left out

- PDF and DOCX decoding (`_extract_pdf_text`, `_extract_docx_text`) are foreign-library I/O. `ResumeParser.ParseFile` takes the decoded text, or the decoder's failure, as a parameter.
- Streamlit calls (`st.error`, the `display_*`, `create_*` and `format_optimization_result` helpers) are user-interface output. They are not modelled.
- `format_file_size`, `format_date` and `generate_file_hash` use floating-point formatting, `datetime.strptime` and MD5. These are outside the named core.
- The database layer, the model API calls (`optimize_resume`, `generate_job_insights`, `validate_api_key`) and `_build_optimization_prompt` are network I/O and prompt templating.
- `_parse_confidence_score` converts text to a float. `OptimizationResult` keeps the CONFIDENCE_SCORE section text instead of the score.
- Utils.Similarity: returns the Jaccard ratio as a numerator and denominator rather than a float.
- Case folding is ASCII-only. Python's Unicode `lower`, `upper` and `\w` are not modelled beyond ASCII.
- Whitespace and digits are ASCII-only. `\s`, `\d`, `\D`, `str.strip` and `str.isspace` are modelled on space, `\t`, `\n`, `\v`, `\f`, `\r` and `\x1c`-`\x1f` (`Text.IsSpace`) and on `0`-`9` (`Text.IsDigit`). Unicode whitespace such as the no-break space U+00A0 and non-ASCII digits are not modelled. For them `clean_text`, `validate_phone` and the year patterns differ from the program.
- The `else` branch of `parse_file` for an unsupported extension cannot be reached after `_validate_file`. It is not modelled.
- The `except Exception` handler of `parse_file` is covered only for decoding failures. The modelled steps cannot raise.
- Utils.HighlightKeywords: requires that no keyword contain a backslash. `re.sub` reads backslash escapes in the replacement `**keyword**`, and that escape handling is not modelled.
- Utils.ValidateResumeContent: keeps issues as the `Issue` datatype. `Utils.Message` gives the exact strings.
- Contact.ContactInfo: uses the `ContactField` datatype as dictionary keys. `Contact.KeyName` gives the exact key strings.
- A section map value is keyed by `Models.SectionKind`. `Models.KindName` gives the dictionary key string.
- Python sets returned as lists (`list(set(...))`) are modelled as sets. Their iteration order is arbitrary in Python.

## Findings

| source | as written | input that shows it | evidently intended | confidence | as-written member | corrected member |
|---|---|---|---|---|---|---|
| src/resume_parser.py:242 | the pattern `[A-Z][^,\n]*` followed by the degree alternation needs one letter before the degree word, so an entry starting with the degree word has no degree | an education entry `PhD` or `Bachelor of Science` gives degree `''` | the degree phrase may start with the degree word itself | medium, not executed | EntryExtractor.DegreeAsWrittenMissesLeadingWord | EntryExtractor.DegreeOfLeadingWord |
| src/utils.py:111 | the top-level character class lists `A-Z`, a literal vertical bar and `a-z`, so the extracted e-mail can hold a bar | `a@b.c` + bar + `d` is extracted whole, yet fails `validate_email` | the class `[A-Za-z]` | high, not executed | Contact.EmailAsWrittenAdmitsBar | Contact.EmailInIsValid |

In both rows the as-written member shows the discrepancy. The corrected member
proves the intended property about the corrected scanner (`EntryExtractor.Degree`,
`Contact.EmailIn`). The records and the contact map are built with the
as-written scanners (`EntryExtractor.DegreeAsWritten`, `Contact.EmailInAsWritten`).
