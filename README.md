# pharma_papers core: affiliation classifier and PubMed metadata extractor

This project models the two core components of `pharma_papers` and proves properties about them.

- **The metadata extractor** (`pharma_papers/parser.py`, `PubMedParser`) turns a fetched batch of PubMed articles into paper records. Each record holds:
  - the PMID;
  - the title, or "Unknown Title";
  - a normalised publication date (`YYYY-MM-DD`, `YYYY-MM`, `YYYY` or "Unknown Date");
  - the authors, each with a display name and affiliation strings;
  - a corresponding-author email, taken from the first of four sources in priority order.
- **The affiliation classifier** (`pharma_papers/filters.py`, `AffiliationFilter`) keeps only papers that have at least one author from a pharmaceutical or biotech company. For each affiliation string it takes a first-match decision: blank, then academic, then government/non-profit, then pharma/biotech. From every company string it extracts a company name heuristically.

The model is split into five modules:

| module | holds |
|---|---|
| `Basics` | `Option` and the three traversals everything is built from: keep the selected images (`FilterMap`), union of per-element sets (`UnionMap`), first selected image (`FirstSome`) |
| `Strings` | the Python `str` operations the source uses, on ASCII: `lower`, `strip`, `in`, `split(c)[0]`, `split(c)[-1]`, `join`; and two that serve the proofs: `IndexOf`, the first occurrence that `split(suffix)[0]` cuts at, and `SplitOn`, a full `split(c)` used to read a composed date back |
| `Email` | a scanner with the semantics of `re.search(r'[\w\.-]+@[\w\.-]+\.\w+', text)` |
| `Parser` | `parser.py` |
| `Filters` | `filters.py` |

The source's loops are modelled as Dafny methods with loops:
- `parse_xml_batch`, `_extract_authors` and its affiliation loop;
- `_check_author_affiliations`, `filter_papers_with_company_affiliations` and its author loop.

Each method is proved to compute a specification function (`ParsedBatch`, `AuthorsOf`, `AffiliationsOf`, `IsFlagged`/`AuthorCompanyNames`, `ClassifyPapers`). The properties are proved about those functions.

Three source functions only compute a value and are modelled as Dafny functions:
- `_extract_publication_date`;
- `_extract_corresponding_email`;
- `_extract_company_name`, whose loop is an early-return scan (`FirstSome`).

`AffiliationFilter` has no state, so its keyword tables are module constants.

**"Acme Therapeutics, Inc." gives "Acme Therapeutics", not "Acme Therapeutics Inc."** (`pharma_papers/filters.py:154-173`):
- "Inc." occurs, and the text before it is "Acme Therapeutics, ".
- The last comma-separated piece of that text is blank, so the suffix gives no name.
- No other suffix occurs, so the fallback returns the first comma-separated piece.

 `Filters.CommaRightBeforeSuffix` proves that a suffix placed directly after a comma never gives a name.

## Model

| member | source | states |
|---|---|---|
| `Strings.Lower` | pharma_papers/filters.py:108 | lower-casing keeps the length, leaves no capital letter, turns each capital into its lower-case letter and keeps every other character |
| `Strings.LowerIdempotent` | pharma_papers/filters.py:108 | lower-casing twice is lower-casing once |
| `Strings.Strip` | pharma_papers/filters.py:161 | the result is empty iff the string is all whitespace; otherwise it begins and ends with non-space characters and is the middle slice with only whitespace removed on either side |
| `Strings.StripUnchanged` | pharma_papers/filters.py:163 | a string whose ends are not whitespace is left as it is by `strip()` |
| `Strings.Contains` | pharma_papers/filters.py:115 | `k in s`; characterised by `Strings.ContainsAt` |
| `Strings.StripLeadingSpace` | pharma_papers/parser.py:146 | a leading space disappears under `strip()` |
| `Strings.StripKeepsOut` | pharma_papers/filters.py:161 | `strip()` introduces no character |
| `Strings.ContainsAt` | pharma_papers/filters.py:115 | `k in s` holds iff `k` occurs at some position of `s` |
| `Strings.ContainsTransitive` | pharma_papers/filters.py:115-120 | a substring of a substring is a substring |
| `Strings.ContainsNotBlank` | pharma_papers/filters.py:111 | a string containing a word with a non-space character is not blank |
| `Strings.IndexOf` | pharma_papers/filters.py:155-157 | the result is present iff `k in s`; it is an occurrence of `k`, and no earlier position holds one (so `s.split(k)[0]` is the text before it) |
| `Strings.FirstSegment` | pharma_papers/filters.py:167 | `split(c)[0]` is a prefix without `c`, followed by `c` unless it is the whole string |
| `Strings.LastSegment` | pharma_papers/filters.py:160-161 | `split(c)[-1]` is a suffix without `c`, preceded by `c` unless it is the whole string |
| `Strings.LastSegmentBlank` | pharma_papers/filters.py:160-162 | when only whitespace follows the last comma, the last piece is blank |
| `Strings.SplitOnGlued` | pharma_papers/parser.py:115 | splitting on `c` undoes gluing with `c` when the first piece lacks `c` |
| `Strings.SplitOnWhole` | pharma_papers/parser.py:119 | a string without `c` splits into itself alone |
| `Strings.Join` | pharma_papers/filters.py:79-80 | `sep.join(xs)`; used in `Filters.Renders` for the two joined cells |
| `Email.RunEnd` | pharma_papers/parser.py:189 | the greedy run of class characters from `i`: all inside are in the class, the next one is not |
| `Email.LastDot` | pharma_papers/parser.py:189 | the last `.` followed by a word character in the range, the one backtracking settles on; none when the range has none |
| `Email.AddressScanned` | pharma_papers/parser.py:189 | for any address `s[i..e]` of the pattern, the scan from `i` finds the `@`, finds a last `.` before a word character, and its word run reaches at least to `e` |
| `Email.MatchAt` | pharma_papers/parser.py:189 | a match starting at `i` ends within the text, spans an address of the pattern, and no longer address starts at `i`; there is no match exactly when no address starts at `i` |
| `Email.SearchFrom` | pharma_papers/parser.py:189 | a found match is a substring and an address; it is the longest address at the leftmost position at or after `i` where one starts; nothing is found only when no address starts at or after `i` |
| `Email.FindEmail` | pharma_papers/parser.py:189-191 | the result of `re.search(...).group(0)`: the longest address starting at the leftmost position where one starts; None exactly when the text holds no address, in particular when it has no `@` |
| `Parser.TextOr` | pharma_papers/parser.py:66 | an element's text when present and non-empty, otherwise the fallback |
| `Parser.MonthPosition` | pharma_papers/parser.py:105-108 | the position found holds the month text; none is found only when the text is not one of the twelve abbreviations |
| `Parser.NormalizeMonth` | pharma_papers/parser.py:105-111 | a text that is not a month abbreviation is kept as it is; an abbreviation becomes two digits. Which two digits is `Parser.NormalizeMonthByPosition`, the other texts `Parser.NormalizeMonthOther`, and normalising twice `Parser.NormalizeMonthIdempotent` |
| `Parser.NormalizedMonthGiven` | pharma_papers/parser.py:101-114 | whatever the month text, after normalisation the month is the "??" sentinel exactly when no month was given |
| `Parser.NormalizeMonthByPosition` | pharma_papers/parser.py:105-111 | the k-th month abbreviation becomes the two-digit number k + 1 |
| `Parser.NormalizeMonthOther` | pharma_papers/parser.py:110-111 | any other month text is kept as it is |
| `Parser.NormalizeMonthIdempotent` | pharma_papers/parser.py:105-111 | normalising twice is normalising once |
| `Parser.NormalizedMonthPart` | pharma_papers/parser.py:101-114 | after normalisation the month is the "??" sentinel only when no month was given, and normalisation adds no "-" |
| `Parser.PublicationDate` | pharma_papers/parser.py:89-125 | without a PubDate, or without a usable year (missing, empty or "????"), the date is "Unknown Date"; otherwise it begins with the year. Its exact text for any parts is `Parser.DateComposed`; for dash-free parts `Parser.DateRoundTrip` splits it back |
| `Parser.DateComposed` | pharma_papers/parser.py:113-119 | with a year, whatever the parts' texts, the date is the parts present joined with "-": year, then the normalised month, then the day only when the month is present |
| `Parser.DateRoundTrip` | pharma_papers/parser.py:113-119 | with a year, the date splits back on "-" into exactly the parts present: year, then the normalised month, then the day only when the month is present |
| `Parser.ExtractAuthors` | pharma_papers/parser.py:127-169 | the loop yields the authors of the elements that have a LastName, in order (`AuthorsOf`) |
| `Parser.AuthorOf` | pharma_papers/parser.py:137-167 | one Author element's entry, or none without a LastName; characterised by `Parser.NameWithoutForeName`, `Parser.AffiliationsMember` and `Parser.AuthorWithoutLastNameSkipped` |
| `Parser.CollectAffiliations` | pharma_papers/parser.py:149-162 | the non-empty AffiliationInfo texts in order, then the direct Affiliation text |
| `Parser.AuthorWithoutLastNameSkipped` | pharma_papers/parser.py:140-141 | an author element without a LastName is dropped and leaves its neighbours unchanged |
| `Parser.NameWithoutForeName` | pharma_papers/parser.py:144-146 | without a ForeName the display name is the stripped LastName |
| `Parser.AffiliationsMember` | pharma_papers/parser.py:149-162 | a string is an author's affiliation iff it is the non-empty text of one of the author's AffiliationInfo elements or of its direct Affiliation |
| `Parser.CorrespondingEmail` | pharma_papers/parser.py:175-209 | the four-level search; characterised level by level by `Parser.ArticleIdDecides`, `Parser.AffiliationDecides`, `Parser.ELocationDecides`, `Parser.FootnoteDecides`, and overall by `Parser.EmailSources` |
| `Parser.ArticleIdDecides` | pharma_papers/parser.py:181-183 | the first ArticleId typed "email" decides, with "" when it has no text |
| `Parser.AffiliationDecides` | pharma_papers/parser.py:186-191 | failing that, the first Affiliation text holding an address decides |
| `Parser.ELocationDecides` | pharma_papers/parser.py:194-196 | failing that, the first ELocationID typed "email" decides |
| `Parser.FootnoteDecides` | pharma_papers/parser.py:199-205 | failing that, the first address in a footnote mentioning correspondence or email decides, else ""; such a result is an address |
| `Parser.EmailSources` | pharma_papers/parser.py:175-205 | the email is always one of: "", an address found by the scanner, or the text of an ArticleId or ELocationID |
| `Parser.ExtractPaperInfo` | pharma_papers/parser.py:45-83 | no record without a non-empty PMID; otherwise the record of the five extracted fields (`PaperOf`) |
| `Parser.PaperOf` | pharma_papers/parser.py:45-83 | the record of one article; characterised by `Parser.PaperOfFields` |
| `Parser.PaperOfFields` | pharma_papers/parser.py:57-66 | a record exists iff the PMID is present and non-empty; it carries that PMID; the title is "Unknown Title" iff the title is missing, empty or literally that text |
| `Parser.ParseXmlBatch` | pharma_papers/parser.py:14-43 | a malformed batch gives no records; otherwise the records of the articles that yield one, in document order (`ParsedBatch`) |
| `Parser.ParsedInDocumentOrder` | pharma_papers/parser.py:28-34 | record k is the record parsed from a strictly increasing article position (so it carries that article's PMID), and every article with a non-empty PMID yields a record |
| `Parser.BatchesConcatenate` | pharma_papers/parser.py:30-34 | parsing two article lists and concatenating equals parsing their concatenation |
| `Filters.SignalOf` | pharma_papers/filters.py:110-124 | the first-match decision for one lower-cased string; characterised by `Filters.CompanySignalIff`, `Filters.BlankSkipped`, `Filters.AcademicWins` and `Filters.ShadowedGovernmentKeywords` |
| `Filters.Classify` | pharma_papers/filters.py:107-124 | `SignalOf` of the lower-cased string; characterised by the same lemmas and `Filters.ClassifyIgnoresCase` |
| `Filters.AcademicKeywordsHaveLetters` | pharma_papers/filters.py:13-17 | every academic keyword has a non-space second character |
| `Filters.PharmaKeywordsHaveLetters` | pharma_papers/filters.py:28-34 | every pharma/biotech keyword has a non-space second character |
| `Filters.CompanySignalIff` | pharma_papers/filters.py:107-129 | a string gives the company signal iff its lower-cased form contains a pharma/biotech keyword and neither an academic nor a government/non-profit one; the blank test never decides this |
| `Filters.BlankSkipped` | pharma_papers/filters.py:110-112 | a blank or whitespace-only string is skipped: no signal and no company name, so by `Filters.NonCompanyStringsChangeNothing` it affects neither the flag nor the names |
| `Filters.AcademicWins` | pharma_papers/filters.py:115-117 | a string containing an academic keyword is academic, whatever else it contains, and gives no company name |
| `Filters.ShadowedGovernmentKeywords` | pharma_papers/filters.py:20-25 | "department of" and "national institute" never decide: any string holding them is academic first |
| `Filters.ClassifyIgnoresCase` | pharma_papers/filters.py:108 | lower-casing the input first changes no decision |
| `Filters.SuffixCandidate` | pharma_papers/filters.py:155-163 | a suffix that does not occur gives nothing; a suffix that occurs gives a name whenever the trimmed last comma piece before its first occurrence is non-empty; a name it gives is non-empty, and comma-free when the suffix is. Its exact shape is `Filters.SuffixCandidateShape` |
| `Filters.ExtractCompanyName` | pharma_papers/filters.py:137-173 | the name never holds a comma, and it is empty exactly when no suffix gives a name and the text before the first comma is blank. Which name it is: `Filters.SuffixOrderDecides` and `Filters.FallbackDecides` |
| `Filters.Fallback` | pharma_papers/filters.py:165-173 | the fallback name is at most 50 characters long and contains no comma |
| `Filters.SuffixesEndInLetters` | pharma_papers/filters.py:148-151 | every company suffix is non-empty and ends in a non-space character |
| `Filters.SuffixCandidateShape` | pharma_papers/filters.py:154-163 | a suffix's name is a non-empty, comma-free, trimmed piece, a space and the suffix; the final `strip()` never changes it |
| `Filters.SuffixOrderDecides` | pharma_papers/filters.py:154-163 | the first suffix in list order that gives a name decides |
| `Filters.FallbackDecides` | pharma_papers/filters.py:165-173 | when no suffix gives a name, the result is the trimmed first comma-separated piece, or its first 47 characters and "..." when longer than 50 |
| `Filters.CommaRightBeforeSuffix` | pharma_papers/filters.py:157-162 | a suffix whose first occurrence follows a comma with only whitespace between gives no name |
| `Filters.NameFrom` | pharma_papers/filters.py:124-129 | the company name one string adds to the author's set; characterised by `Filters.BlankSkipped`, `Filters.AcademicWins` and `Filters.AuthorCompanyNamesMember` |
| `Filters.IsFlagged` | pharma_papers/filters.py:124-125 | some string has the company signal; characterised by `Filters.IsFlaggedAppend` and `Filters.NoCompanySignalNoFlag` |
| `Filters.IsFlaggedAppend` | pharma_papers/filters.py:107-125 | an author's flag over a concatenation of strings is the disjunction of the flags of the parts |
| `Filters.CheckAuthorAffiliations` | pharma_papers/filters.py:88-135 | the loop flags the author iff some string gives the company signal (`IsFlagged`); the names are the union of the non-empty names extracted from those strings (`AuthorCompanyNames`) |
| `Filters.AuthorCompanyNamesMember` | pharma_papers/filters.py:124-129 | a name is an author's company name iff it is non-empty and extracted from one of the author's company-signal strings |
| `Filters.NoCompanySignalNoFlag` | pharma_papers/filters.py:100-135 | an author with no company-signal string (none at all, or blank, academic, government or unmatched) is not flagged and has no names |
| `Filters.NonCompanyStringsChangeNothing` | pharma_papers/filters.py:131-133 | adding academic, government, blank or unmatched strings anywhere changes neither the flag nor the names, so mixed authors stay flagged |
| `Filters.EnumerateSet` | pharma_papers/filters.py:80 | iterating over a set lists each element exactly once |
| `Filters.CollectFlaggedAuthors` | pharma_papers/filters.py:62-71 | the author loop gives the flagged authors' names in author order, and the union of their company names |
| `Filters.RowRenders` | pharma_papers/filters.py:75-82 | the dictionary built for a paper with flagged authors renders its classification: fields copied, names joined in order, company names joined in an iteration order |
| `Filters.FilterPapers` | pharma_papers/filters.py:46-86 | row k renders the k-th classified paper (`ClassifyPapers`): one row per paper with a flagged author |
| `Filters.ClassifyPaper` | pharma_papers/filters.py:61-83 | one paper's outcome; characterised by `Filters.RetainedIff`, `Filters.FlaggedAuthorsInOrder` and `Filters.CompanyAffiliationsMember` |
| `Filters.RetainedIff` | pharma_papers/filters.py:73-74 | a paper is kept iff some author has a string with the company signal |
| `Filters.RetainedInOrder` | pharma_papers/filters.py:59-83 | row k comes from a strictly increasing paper position with the same PMID, and every paper with a flagged author is kept |
| `Filters.FlaggedAuthorsInOrder` | pharma_papers/filters.py:66-70 | the non-academic authors are the flagged authors' names, in author order, one per flagged author |
| `Filters.CompanyAffiliationsMember` | pharma_papers/filters.py:63-71 | a name is among a kept paper's company affiliations iff it is non-empty and extracted from a company-signal string of one of its authors |
| `Filters.ClassifyPapersConcatenate` | pharma_papers/filters.py:61-83 | classifying two lists of papers and concatenating equals classifying their concatenation |

## Left out

- XML parsing is not modelled: `ET.fromstring` and the `find`/`findall` path searches. A batch is either `Malformed` (the `ET.ParseError` path) or a list of abstract `ArticleElement`s holding what the path searches find.
- The per-article and per-function `except Exception` handlers and all logging are not modelled. On the abstract input, nothing in the modelled extraction raises.
- Text handling is ASCII only:
  - `str.lower()` and `str.strip()`, and `\w` in the email pattern;
  - Unicode case mapping and whitespace are not modelled.
- The order of Affiliation elements in the email search is fixed by the model. Within an author, the model takes the AffiliationInfo texts, then the direct Affiliation.
- The email search searches only the Affiliation elements of the first AuthorList's Author elements. `.//Affiliation` also sees:
  - Affiliation elements outside any Author element;
  - the Affiliations of Author elements in a second AuthorList;
  - any Affiliation after the first inside one AffiliationInfo (the author extraction reads only the first, and the model holds one text per AffiliationInfo);
  - a second direct Affiliation child of an Author (the author extraction reads only the first, and the model holds one direct text per Author).
- `.//AffiliationInfo` searches all descendants. The model holds the Affiliation texts found that way as one list, without their nesting.
- `ACADEMIC_EMAIL_PATTERNS` is not modelled: the source never uses it.
- The `has_academic_affiliation` flag is not modelled: it is set but never read, and nothing depends on it.
- The keyword tables are Python sets and are modelled as sequences. Only membership is ever tested, so the duplicate "therapeutics" in the pharma table changes nothing.
- The `paper.get(key, default)` defaults in `filter_papers_with_company_affiliations` are not modelled: every record has all five keys, so they never apply.
- Filters.FilterPapers: the order in which `", ".join(company_affiliations)` lists a set's elements depends on hashing, so Python leaves it unspecified. The contract states the company cell only up to that order (`JoinsSet`).
- `api.py`, `formatter.py` and `cli.py` are not part of this model: the PubMed client, the CSV/console output and the command line.
