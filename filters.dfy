/** The affiliation classifier of `pharma_papers/filters.py`. `AffiliationFilter` keeps no state
 *  of its own (its constructor does nothing), so its keyword tables are module constants and its
 *  methods are methods of this module. */
module Filters {

  import opened Basics
  import opened Strings
  import opened Parser

  const ACADEMIC_KEYWORDS: seq<string> := [
    "university", "college", "institute", "school", "academy",
    "faculty", "department", "laboratory", "hospital", "clinic",
    "medical center", "health system", "polytechnic", "academia"]

  const GOVT_NONPROFIT_KEYWORDS: seq<string> := [
    "ministry", "department of", "national institute", "foundation",
    "association", "society", "center for", "organization", "trust",
    "council", "agency", "authority", "public health", "government",
    "federal", "state", "county", "committee", "administration"]

  /** As in the source, "therapeutics" is listed twice; a repeat changes no membership test. */
  const PHARMA_BIOTECH_KEYWORDS: seq<string> := [
    "pharma", "biotech", "therapeutics", "bioscience",
    "laboratories", "labs", "biotechnology", "pharmaceutical",
    "biopharmaceutical", "genetics", "genomics", "life sciences",
    "biologics", "medicines", "drugs", " ltd", " llc", " inc", " corp",
    "therapeutics", "diagnostics", " gmbh", " co", "biopharma"]

  /** The corporate suffixes `_extract_company_name` tries, in this order. */
  const COMPANY_SUFFIXES: seq<string> := [
    "Inc.", "LLC", "Ltd.", "Limited", "Corp.", "Corporation",
    "GmbH", "Co.", "Company", "S.A.", "AG", "B.V."]

  // ---------------------------------------------------------------------------------------
  // One affiliation string

  /** The outcome of the first-match decision for one affiliation string. */
  datatype Signal = Skipped | Academic | Neutral | Company | Unmatched

  /** `any(keyword in lower for keyword in keywords)`. */
  predicate MentionsAny(lower: string, keywords: seq<string>)
  {
    exists i {:trigger Contains(lower, keywords[i])} :: 0 <= i < |keywords| && Contains(lower, keywords[i])
  }

  /** The decision `_check_author_affiliations` takes for one lower-cased string: skip a blank
      string, then academic, then government/non-profit, then pharma/biotech. */
  function SignalOf(lower: string): Signal
  {
    if IsBlank(lower) then Skipped
    else if MentionsAny(lower, ACADEMIC_KEYWORDS) then Academic
    else if MentionsAny(lower, GOVT_NONPROFIT_KEYWORDS) then Neutral
    else if MentionsAny(lower, PHARMA_BIOTECH_KEYWORDS) then Company
    else Unmatched
  }

  function Classify(affiliation: string): Signal
  {
    SignalOf(Lower(affiliation))
  }

  /** No academic keyword has a space as its second character. */
  lemma AcademicKeywordsHaveLetters()
    ensures forall i :: 0 <= i < |ACADEMIC_KEYWORDS| ==> |ACADEMIC_KEYWORDS[i]| > 1 && !IsSpace(ACADEMIC_KEYWORDS[i][1])
  {
  }

  /** No pharma/biotech keyword has a space as its second character (" ltd" starts with one). */
  lemma PharmaKeywordsHaveLetters()
    ensures forall i :: 0 <= i < |PHARMA_BIOTECH_KEYWORDS| ==> |PHARMA_BIOTECH_KEYWORDS[i]| > 1 && !IsSpace(PHARMA_BIOTECH_KEYWORDS[i][1])
  {
  }

  /** A string yields the company signal exactly when it mentions a pharma/biotech keyword and
      neither an academic nor a government/non-profit one; the blank test never decides it. */
  lemma CompanySignalIff(affiliation: string)
    ensures var lower := Lower(affiliation);
      Classify(affiliation) == Company
      <==> MentionsAny(lower, PHARMA_BIOTECH_KEYWORDS)
           && !MentionsAny(lower, ACADEMIC_KEYWORDS)
           && !MentionsAny(lower, GOVT_NONPROFIT_KEYWORDS)
  {
    var lower := Lower(affiliation);
    if MentionsAny(lower, PHARMA_BIOTECH_KEYWORDS) {
      var i :| 0 <= i < |PHARMA_BIOTECH_KEYWORDS| && Contains(lower, PHARMA_BIOTECH_KEYWORDS[i]);
      PharmaKeywordsHaveLetters();
      ContainsNotBlank(lower, PHARMA_BIOTECH_KEYWORDS[i], 1);
      assert !IsBlank(lower);
    }
  }

  /** A blank or whitespace-only string is skipped: it gives no signal and no company name. */
  lemma BlankSkipped(affiliation: string)
    requires forall k :: 0 <= k < |affiliation| ==> IsSpace(affiliation[k])
    ensures Classify(affiliation) == Skipped && NameFrom(affiliation) == {}
  {
    var lower := Lower(affiliation);
    assert forall k :: 0 <= k < |lower| ==> IsSpace(lower[k]);
  }

  /** Academic priority: a string that mentions an academic keyword is academic, whatever
      pharma keyword it also mentions, and gives no company name. */
  lemma AcademicWins(affiliation: string, k: nat)
    requires k < |ACADEMIC_KEYWORDS| && Contains(Lower(affiliation), ACADEMIC_KEYWORDS[k])
    ensures Classify(affiliation) == Academic
    ensures NameFrom(affiliation) == {}
  {
    AcademicKeywordsHaveLetters();
    ContainsNotBlank(Lower(affiliation), ACADEMIC_KEYWORDS[k], 1);
  }

  /** The government keywords "department of" and "national institute" can never decide: a
      string holding either holds "department" or "institute" and is academic first. */
  lemma ShadowedGovernmentKeywords(affiliation: string)
    requires Contains(Lower(affiliation), "department of") || Contains(Lower(affiliation), "national institute")
    ensures Classify(affiliation) == Academic
  {
    var lower := Lower(affiliation);
    if Contains(lower, "department of") {
      assert "department of" == "" + "department" + " of";
      ContainsMiddle("", "department", " of");
      ContainsTransitive(lower, "department of", "department");
      assert ACADEMIC_KEYWORDS[6] == "department";
      AcademicWins(affiliation, 6);
    } else {
      assert "national institute" == "national " + "institute" + "";
      ContainsMiddle("national ", "institute", "");
      ContainsTransitive(lower, "national institute", "institute");
      assert ACADEMIC_KEYWORDS[2] == "institute";
      AcademicWins(affiliation, 2);
    }
  }

  /** Lower-casing the input first changes no decision: the keywords are lower-case. */
  lemma ClassifyIgnoresCase(affiliation: string)
    ensures Classify(Lower(affiliation)) == Classify(affiliation)
  {
    LowerIdempotent(affiliation);
  }

  // ---------------------------------------------------------------------------------------
  // Company name

  /** What one suffix yields: the last comma-separated piece of the text before the suffix's
      first occurrence, trimmed, followed by the suffix; None when the suffix does not occur
      or that piece is empty. */
  function SuffixCandidate(affiliation: string, suffix: string): (r: Option<string>)
    ensures !Contains(affiliation, suffix) ==> r.None?
    ensures (Contains(affiliation, suffix)
             && Strip(LastSegment(affiliation[..IndexOf(affiliation, suffix).value], ',')) != "")
            ==> r.Some?
    ensures r.Some? ==> r.value != ""
    ensures r.Some? && ',' !in suffix ==> ',' !in r.value
  {
    match IndexOf(affiliation, suffix)
    case None => None
    case Some(i) =>
      var before := affiliation[..i];
      if before == "" then None
      else
        var piece := LastSegment(before, ',');
        var company := Strip(piece);
        if company == "" then None
        else
          GluedName(piece, suffix);
          Some(Strip(company + " " + suffix))
  }

  /** A non-blank piece, a space and a suffix give a non-empty name, comma-free when the piece
      and the suffix are. */
  lemma GluedName(piece: string, suffix: string)
    requires Strip(piece) != ""
    ensures Strip(Strip(piece) + " " + suffix) != ""
    ensures ',' !in piece && ',' !in suffix ==> ',' !in Strip(Strip(piece) + " " + suffix)
  {
    var company := Strip(piece);
    var glued := company + " " + suffix;
    assert glued[0] == company[0];
    if ',' !in piece && ',' !in suffix {
      StripKeepsOut(piece, ',');
      StripKeepsOut(glued, ',');
    }
  }

  /** The first comma-separated piece, trimmed and capped at 50 characters. */
  function Fallback(affiliation: string): (r: string)
    ensures |r| <= 50
    ensures ',' !in r
  {
    var first := Strip(FirstSegment(affiliation, ','));
    StripKeepsOut(FirstSegment(affiliation, ','), ',');
    if |first| > 50 then first[..47] + "..." else first
  }

  /** `SuffixCandidate` with the affiliation fixed, for the scan over the suffixes. */
  function CandidateFor(affiliation: string): string -> Option<string>
  {
    suffix => SuffixCandidate(affiliation, suffix)
  }

  /** `_extract_company_name`: the name the first productive suffix yields, else the fallback.
      The name never holds a comma, and it is empty exactly when no suffix yields a name and the
      text before the first comma is blank. */
  function ExtractCompanyName(affiliation: string): (r: string)
    ensures ',' !in r
    ensures r == "" <==>
      (forall j :: 0 <= j < |COMPANY_SUFFIXES| ==> SuffixCandidate(affiliation, COMPANY_SUFFIXES[j]).None?)
      && IsBlank(FirstSegment(affiliation, ','))
  {
    ScanResult(affiliation);
    match FirstSome(COMPANY_SUFFIXES, CandidateFor(affiliation))
    case Some(name) => name
    case None => Fallback(affiliation)
  }

  /** What the scan over the suffixes gives: a non-empty comma-free name, or nothing when no
      suffix yields one. */
  lemma ScanResult(affiliation: string)
    ensures var found := FirstSome(COMPANY_SUFFIXES, CandidateFor(affiliation));
      (found.None? <==>
        forall j :: 0 <= j < |COMPANY_SUFFIXES| ==> SuffixCandidate(affiliation, COMPANY_SUFFIXES[j]).None?)
      && (found.Some? ==> found.value != "" && ',' !in found.value)
      && (found.None? ==> (Fallback(affiliation) == "" <==> IsBlank(FirstSegment(affiliation, ','))))
  {
    var found := FirstSome(COMPANY_SUFFIXES, CandidateFor(affiliation));
    if found.Some? {
      var k :| 0 <= k < |COMPANY_SUFFIXES| && CandidateFor(affiliation)(COMPANY_SUFFIXES[k]) == found;
      SuffixesHaveNoComma();
      assert SuffixCandidate(affiliation, COMPANY_SUFFIXES[k]) == found;
    } else {
      FallbackEmpty(affiliation);
    }
  }

  /** The fallback is empty exactly when the text before the first comma is blank. */
  lemma FallbackEmpty(affiliation: string)
    ensures Fallback(affiliation) == "" <==> IsBlank(FirstSegment(affiliation, ','))
  {
  }

  lemma SuffixesHaveNoComma()
    ensures forall i :: 0 <= i < |COMPANY_SUFFIXES| ==> ',' !in COMPANY_SUFFIXES[i]
  {
  }

  /** Every suffix ends with a non-space character. */
  lemma SuffixesEndInLetters()
    ensures forall i :: 0 <= i < |COMPANY_SUFFIXES| ==>
      COMPANY_SUFFIXES[i] != "" && !IsSpace(COMPANY_SUFFIXES[i][|COMPANY_SUFFIXES[i]| - 1])
  {
  }

  /** The name the suffix at position `k` yields is a non-empty, comma-free, trimmed piece, a
      space and the suffix (the final `strip()` of the source never changes it). */
  lemma SuffixCandidateShape(affiliation: string, k: nat)
    requires k < |COMPANY_SUFFIXES| && SuffixCandidate(affiliation, COMPANY_SUFFIXES[k]).Some?
    ensures var suffix := COMPANY_SUFFIXES[k];
      var i := IndexOf(affiliation, suffix).value;
      var company := Strip(LastSegment(affiliation[..i], ','));
      company != "" && ',' !in company && !IsSpace(company[0]) && !IsSpace(company[|company| - 1])
      && SuffixCandidate(affiliation, suffix).value == company + " " + suffix
  {
    var suffix := COMPANY_SUFFIXES[k];
    var i := IndexOf(affiliation, suffix).value;
    var piece := LastSegment(affiliation[..i], ',');
    var company := Strip(piece);
    StripKeepsOut(piece, ',');
    SuffixesEndInLetters();
    var glued := company + " " + suffix;
    assert glued[0] == company[0] && glued[|glued| - 1] == suffix[|suffix| - 1];
    StripUnchanged(glued);
  }

  /** First match: the first suffix in list order that yields a name decides. */
  lemma SuffixOrderDecides(affiliation: string, k: nat)
    requires k < |COMPANY_SUFFIXES| && SuffixCandidate(affiliation, COMPANY_SUFFIXES[k]).Some?
    requires forall j :: 0 <= j < k ==> SuffixCandidate(affiliation, COMPANY_SUFFIXES[j]).None?
    ensures ExtractCompanyName(affiliation) == SuffixCandidate(affiliation, COMPANY_SUFFIXES[k]).value
  {
    FirstSomeAt(COMPANY_SUFFIXES, CandidateFor(affiliation), k);
  }

  /** When no suffix yields a name (none occurs, or each piece before it is empty), the
      fallback decides, and its result is at most 50 characters long: the trimmed first
      comma-separated piece, or its first 47 characters and "..." when that piece is longer. */
  lemma FallbackDecides(affiliation: string)
    requires forall j :: 0 <= j < |COMPANY_SUFFIXES| ==> SuffixCandidate(affiliation, COMPANY_SUFFIXES[j]).None?
    ensures var first := Strip(FirstSegment(affiliation, ','));
      ExtractCompanyName(affiliation) == (if |first| > 50 then first[..47] + "..." else first)
      && |ExtractCompanyName(affiliation)| <= 50
  {
  }

  /** A suffix whose first occurrence follows a comma with only whitespace between yields
      nothing: the last comma-separated piece before it is blank. So "Acme Therapeutics, Inc."
      gets no name from "Inc." and is left to the other suffixes and the fallback. */
  lemma CommaRightBeforeSuffix(affiliation: string, suffix: string, p: nat)
    requires IndexOf(affiliation, suffix).Some?
    requires p < IndexOf(affiliation, suffix).value && affiliation[p] == ','
    requires forall k :: p < k < IndexOf(affiliation, suffix).value ==> IsSpace(affiliation[k])
    ensures SuffixCandidate(affiliation, suffix).None?
  {
    var before := affiliation[..IndexOf(affiliation, suffix).value];
    LastSegmentBlank(before, ',', p);
  }

  // ---------------------------------------------------------------------------------------
  // One author

  /** The company name one string contributes: only on the company signal, and only if the
      extracted name is non-empty. */
  function NameFrom(affiliation: string): set<string>
  {
    if Classify(affiliation) == Company && ExtractCompanyName(affiliation) != "" then
      {ExtractCompanyName(affiliation)}
    else {}
  }

  /** The author is non-academic: some string yields the company signal. */
  predicate IsFlagged(affiliations: seq<string>)
  {
    exists i {:trigger Classify(affiliations[i])} :: 0 <= i < |affiliations| && Classify(affiliations[i]) == Company
  }

  function AuthorCompanyNames(affiliations: seq<string>): set<string>
  {
    UnionMap(affiliations, NameFrom)
  }

  /** The flag of a concatenation is the disjunction of the flags of the parts. */
  lemma IsFlaggedAppend(xs: seq<string>, ys: seq<string>)
    ensures IsFlagged(xs + ys) <==> IsFlagged(xs) || IsFlagged(ys)
  {
    var all := xs + ys;
    if IsFlagged(all) {
      var i :| 0 <= i < |all| && Classify(all[i]) == Company;
      if i < |xs| {
        assert xs[i] == all[i];
      } else {
        assert ys[i - |xs|] == all[i];
      }
    }
    if IsFlagged(xs) {
      var i :| 0 <= i < |xs| && Classify(xs[i]) == Company;
      assert all[i] == xs[i];
    }
    if IsFlagged(ys) {
      var i :| 0 <= i < |ys| && Classify(ys[i]) == Company;
      assert all[|xs| + i] == ys[i];
    }
  }

  /** One more string raises the flag exactly when it has the company signal. */
  lemma IsFlaggedSnoc(affiliations: seq<string>, affiliation: string)
    ensures IsFlagged(affiliations + [affiliation]) <==> IsFlagged(affiliations) || Classify(affiliation) == Company
  {
    IsFlaggedAppend(affiliations, [affiliation]);
    assert [affiliation][0] == affiliation;
  }

  /** `_check_author_affiliations`: a loop that raises a flag and grows a set of names. */
  method CheckAuthorAffiliations(author: Author) returns (isNonAcademic: bool, companyNames: set<string>)
    ensures isNonAcademic == IsFlagged(author.affiliations)
    ensures companyNames == AuthorCompanyNames(author.affiliations)
  {
    var affiliations := author.affiliations;
    if |affiliations| == 0 {
      return false, {};
    }
    companyNames := {};
    var hasCompanyAffiliation := false;
    for i := 0 to |affiliations|
      invariant hasCompanyAffiliation == IsFlagged(affiliations[..i])
      invariant companyNames == AuthorCompanyNames(affiliations[..i])
    {
      var affiliation := affiliations[i];
      PrefixSnoc(affiliations, i);
      IsFlaggedSnoc(affiliations[..i], affiliation);
      UnionMapSnoc(affiliations[..i], affiliation, NameFrom);
      if Classify(affiliation) != Company {
        // blank, academic, government/non-profit, or no keyword at all
        continue;
      }
      hasCompanyAffiliation := true;
      var companyName := ExtractCompanyName(affiliation);
      if companyName != "" {
        companyNames := companyNames + {companyName};
      }
    }
    assert affiliations[..|affiliations|] == affiliations;
    isNonAcademic := hasCompanyAffiliation;
  }

  /** A company name of an author comes from one of its strings with the company signal. */
  lemma AuthorCompanyNamesMember(affiliations: seq<string>, name: string)
    ensures name in AuthorCompanyNames(affiliations)
      <==> name != "" &&
           exists i :: 0 <= i < |affiliations| &&
             Classify(affiliations[i]) == Company && ExtractCompanyName(affiliations[i]) == name
  {
    UnionMapMember(affiliations, NameFrom, name);
  }

  /** An author without affiliations, or whose strings are all blank, academic, government or
      unmatched, is not flagged and has no company names. */
  lemma NoCompanySignalNoFlag(affiliations: seq<string>)
    requires forall i :: 0 <= i < |affiliations| ==> Classify(affiliations[i]) != Company
    ensures !IsFlagged(affiliations) && AuthorCompanyNames(affiliations) == {}
  {
    forall name | name in AuthorCompanyNames(affiliations) ensures false {
      AuthorCompanyNamesMember(affiliations, name);
    }
  }

  /** Strings without the company signal (blank, academic, government, unmatched) added
      anywhere change neither the flag nor the names: a mixed academic/industry author stays
      flagged. */
  lemma NonCompanyStringsChangeNothing(before: seq<string>, extra: seq<string>, after: seq<string>)
    requires forall i :: 0 <= i < |extra| ==> Classify(extra[i]) != Company
    ensures IsFlagged(before + extra + after) == IsFlagged(before + after)
    ensures AuthorCompanyNames(before + extra + after) == AuthorCompanyNames(before + after)
  {
    NoCompanySignalNoFlag(extra);
    IsFlaggedAppend(before + extra, after);
    IsFlaggedAppend(before, extra);
    IsFlaggedAppend(before, after);
    UnionMapAppend(before + extra, after, NameFrom);
    UnionMapAppend(before, extra, NameFrom);
    UnionMapAppend(before, after, NameFrom);
  }

  // ---------------------------------------------------------------------------------------
  // Papers

  /** A retained paper before its multi-valued fields are joined into text. */
  datatype ClassifiedPaper = ClassifiedPaper(
    pubmedId: string,
    title: string,
    publicationDate: string,
    nonAcademicAuthors: seq<string>,
    companyAffiliations: set<string>,
    correspondingEmail: string)

  /** The dictionary `filter_papers_with_company_affiliations` appends. */
  datatype ReportRow = ReportRow(
    pubmedId: string,
    title: string,
    publicationDate: string,
    nonAcademicAuthors: string,
    companyAffiliations: string,
    correspondingAuthorEmail: string)

  function FlaggedName(author: Author): Option<string>
  {
    if IsFlagged(author.affiliations) then Some(author.name) else None
  }

  function FlaggedCompanyNames(author: Author): set<string>
  {
    if IsFlagged(author.affiliations) then AuthorCompanyNames(author.affiliations) else {}
  }

  function ClassifyPaper(paper: PaperRecord): Option<ClassifiedPaper>
  {
    var names := FilterMap(paper.authors, FlaggedName);
    if names == [] then None
    else Some(ClassifiedPaper(
      paper.pubmedId, paper.title, paper.publicationDate,
      names, UnionMap(paper.authors, FlaggedCompanyNames), paper.correspondingEmail))
  }

  function ClassifyPapers(papers: seq<PaperRecord>): seq<ClassifiedPaper>
  {
    FilterMap(papers, ClassifyPaper)
  }

  /** `order` lists the elements of `s`, each once. */
  ghost predicate Enumerates(order: seq<string>, s: set<string>)
  {
    (forall i, j :: 0 <= i < j < |order| ==> order[i] != order[j])
    && (forall x :: x in order <==> x in s)
  }

  /** `", ".join(s)` for a set, whose iteration order Python leaves unspecified. */
  ghost predicate JoinsSet(text: string, s: set<string>)
  {
    exists order :: Enumerates(order, s) && text == Join(order, ", ")
  }

  ghost predicate Renders(row: ReportRow, paper: ClassifiedPaper)
  {
    && row.pubmedId == paper.pubmedId
    && row.title == paper.title
    && row.publicationDate == paper.publicationDate
    && row.nonAcademicAuthors == Join(paper.nonAcademicAuthors, ", ")
    && JoinsSet(row.companyAffiliations, paper.companyAffiliations)
    && row.correspondingAuthorEmail == paper.correspondingEmail
  }

  /** One more author: the step of the author loop of `filter_papers_with_company_affiliations`. */
  lemma PaperStep(authors: seq<Author>, author: Author)
    ensures IsFlagged(author.affiliations) ==>
      FilterMap(authors + [author], FlaggedName) == FilterMap(authors, FlaggedName) + [author.name]
      && UnionMap(authors + [author], FlaggedCompanyNames)
         == UnionMap(authors, FlaggedCompanyNames) + AuthorCompanyNames(author.affiliations)
    ensures !IsFlagged(author.affiliations) ==>
      FilterMap(authors + [author], FlaggedName) == FilterMap(authors, FlaggedName)
      && UnionMap(authors + [author], FlaggedCompanyNames) == UnionMap(authors, FlaggedCompanyNames)
  {
    FilterMapSnoc(authors, author, FlaggedName);
    UnionMapSnoc(authors, author, FlaggedCompanyNames);
  }

  /** Each row renders the classified paper at the same position. */
  ghost predicate RendersAll(rows: seq<ReportRow>, papers: seq<ClassifiedPaper>)
  {
    |rows| == |papers| && forall k :: 0 <= k < |rows| ==> Renders(rows[k], papers[k])
  }

  lemma RendersAllSnoc(rows: seq<ReportRow>, papers: seq<ClassifiedPaper>, row: ReportRow, paper: ClassifiedPaper)
    requires RendersAll(rows, papers) && Renders(row, paper)
    ensures RendersAll(rows + [row], papers + [paper])
  {
  }

  /** Iterating over a set: each element once, in an order the model leaves open. */
  method EnumerateSet(s: set<string>) returns (order: seq<string>)
    ensures Enumerates(order, s)
  {
    order := [];
    var rest := s;
    while rest != {}
      invariant forall x :: x in s <==> x in order || x in rest
      invariant forall x :: x in order ==> x !in rest
      invariant forall i, j :: 0 <= i < j < |order| ==> order[i] != order[j]
      decreases |rest|
    {
      var x :| x in rest;
      order := order + [x];
      rest := rest - {x};
    }
  }

  /** The author loop of `filter_papers_with_company_affiliations`: the names of the flagged
      authors in order, and the union of their company names. */
  method CollectFlaggedAuthors(paper: PaperRecord) returns (pharmaAuthors: seq<string>, companyAffiliations: set<string>)
    ensures pharmaAuthors == FilterMap(paper.authors, FlaggedName)
    ensures companyAffiliations == UnionMap(paper.authors, FlaggedCompanyNames)
  {
    pharmaAuthors := [];
    companyAffiliations := {};
    for j := 0 to |paper.authors|
      invariant pharmaAuthors == FilterMap(paper.authors[..j], FlaggedName)
      invariant companyAffiliations == UnionMap(paper.authors[..j], FlaggedCompanyNames)
    {
      var author := paper.authors[j];
      PrefixSnoc(paper.authors, j);
      PaperStep(paper.authors[..j], author);
      var isNonAcademic, affiliations := CheckAuthorAffiliations(author);
      if isNonAcademic {
        pharmaAuthors := pharmaAuthors + [author.name];
        companyAffiliations := companyAffiliations + affiliations;
      }
    }
    assert paper.authors[..|paper.authors|] == paper.authors;
  }

  /** The row built from a paper's flagged authors and an enumeration of its company names
      renders the classified paper. */
  lemma RowRenders(paper: PaperRecord, names: seq<string>, companies: set<string>, order: seq<string>)
    requires names == FilterMap(paper.authors, FlaggedName) && names != []
    requires companies == UnionMap(paper.authors, FlaggedCompanyNames)
    requires Enumerates(order, companies)
    ensures ClassifyPaper(paper).Some?
    ensures Renders(
      ReportRow(paper.pubmedId, paper.title, paper.publicationDate, Join(names, ", "), Join(order, ", "), paper.correspondingEmail),
      ClassifyPaper(paper).value)
  {
  }

  /** `filter_papers_with_company_affiliations`: a loop over the papers that appends one row per
      paper with a flagged author. */
  method FilterPapers(papers: seq<PaperRecord>) returns (rows: seq<ReportRow>)
    ensures RendersAll(rows, ClassifyPapers(papers))
  {
    rows := [];
    ghost var classified: seq<ClassifiedPaper> := [];
    for i := 0 to |papers|
      invariant classified == ClassifyPapers(papers[..i])
      invariant RendersAll(rows, classified)
    {
      var paper := papers[i];
      PrefixSnoc(papers, i);
      FilterMapSnoc(papers[..i], paper, ClassifyPaper);
      var pharmaAuthors, companyAffiliations := CollectFlaggedAuthors(paper);
      if pharmaAuthors != [] {
        var order := EnumerateSet(companyAffiliations);
        var row := ReportRow(
          paper.pubmedId, paper.title, paper.publicationDate,
          Join(pharmaAuthors, ", "), Join(order, ", "), paper.correspondingEmail);
        RowRenders(paper, pharmaAuthors, companyAffiliations, order);
        RendersAllSnoc(rows, classified, row, ClassifyPaper(paper).value);
        rows := rows + [row];
        classified := classified + [ClassifyPaper(paper).value];
      }
    }
    assert papers[..|papers|] == papers;
  }

  /** A paper is retained exactly when some author has a string with the company signal. */
  lemma RetainedIff(paper: PaperRecord)
    ensures ClassifyPaper(paper).Some? <==>
      exists i, j :: 0 <= i < |paper.authors| && 0 <= j < |paper.authors[i].affiliations|
        && Classify(paper.authors[i].affiliations[j]) == Company
  {
    FilterMapEmpty(paper.authors, FlaggedName);
  }

  /** The rows keep the input order: row k comes from paper idx[k], the indices increase, and
      every paper with a flagged author is kept. */
  lemma RetainedInOrder(papers: seq<PaperRecord>) returns (idx: seq<nat>)
    ensures |idx| == |ClassifyPapers(papers)| <= |papers|
    ensures forall k :: 0 <= k < |idx| ==>
      (idx[k] < |papers| && ClassifyPaper(papers[idx[k]]) == Some(ClassifyPapers(papers)[k])
       && ClassifyPapers(papers)[k].pubmedId == papers[idx[k]].pubmedId)
    ensures forall k, l :: 0 <= k < l < |idx| ==> idx[k] < idx[l]
    ensures forall i :: 0 <= i < |papers| && ClassifyPaper(papers[i]).Some? ==> i in idx
  {
    idx := FilterMapIndices(papers, ClassifyPaper);
  }

  /** The non-academic authors of a retained paper are the names of its flagged authors in
      author order, one entry per flagged author (repeated names stay repeated). */
  lemma FlaggedAuthorsInOrder(paper: PaperRecord) returns (idx: seq<nat>)
    requires ClassifyPaper(paper).Some?
    ensures var names := ClassifyPaper(paper).value.nonAcademicAuthors;
      |idx| == |names| > 0
      && (forall k :: 0 <= k < |idx| ==>
            idx[k] < |paper.authors| && IsFlagged(paper.authors[idx[k]].affiliations)
            && names[k] == paper.authors[idx[k]].name)
      && (forall k, l :: 0 <= k < l < |idx| ==> idx[k] < idx[l])
      && (forall i :: 0 <= i < |paper.authors| && IsFlagged(paper.authors[i].affiliations) ==> i in idx)
  {
    idx := FilterMapIndices(paper.authors, FlaggedName);
  }

  /** Some author's affiliation string has the company signal and yields `name`. */
  predicate IsCompanyNameOf(paper: PaperRecord, name: string)
  {
    exists i, j :: 0 <= i < |paper.authors| && 0 <= j < |paper.authors[i].affiliations| &&
      Classify(paper.authors[i].affiliations[j]) == Company &&
      ExtractCompanyName(paper.authors[i].affiliations[j]) == name
  }

  /** A flagged author's names are all its names: a name implies a company-signal string. */
  lemma FlaggedCompanyNamesMember(author: Author, name: string)
    ensures name in FlaggedCompanyNames(author) <==> name in AuthorCompanyNames(author.affiliations)
  {
    if name in AuthorCompanyNames(author.affiliations) {
      AuthorCompanyNamesMember(author.affiliations, name);
      var i :| 0 <= i < |author.affiliations| && Classify(author.affiliations[i]) == Company
        && ExtractCompanyName(author.affiliations[i]) == name;
      assert IsFlagged(author.affiliations);
    }
  }

  /** The company affiliations of a retained paper are the non-empty names extracted from the
      company-signal strings of its authors, each once. */
  lemma CompanyAffiliationsMember(paper: PaperRecord, name: string)
    requires ClassifyPaper(paper).Some?
    ensures name in ClassifyPaper(paper).value.companyAffiliations
      <==> name != "" && IsCompanyNameOf(paper, name)
  {
    var companies := UnionMap(paper.authors, FlaggedCompanyNames);
    assert ClassifyPaper(paper).value.companyAffiliations == companies;
    UnionMapMember(paper.authors, FlaggedCompanyNames, name);
    if name in companies {
      var i :| 0 <= i < |paper.authors| && name in FlaggedCompanyNames(paper.authors[i]);
      FlaggedCompanyNamesMember(paper.authors[i], name);
      AuthorCompanyNamesMember(paper.authors[i].affiliations, name);
      var j :| 0 <= j < |paper.authors[i].affiliations| && Classify(paper.authors[i].affiliations[j]) == Company
        && ExtractCompanyName(paper.authors[i].affiliations[j]) == name;
      assert IsCompanyNameOf(paper, name);
    }
    if name != "" && IsCompanyNameOf(paper, name) {
      var i, j :| 0 <= i < |paper.authors| && 0 <= j < |paper.authors[i].affiliations|
        && Classify(paper.authors[i].affiliations[j]) == Company
        && ExtractCompanyName(paper.authors[i].affiliations[j]) == name;
      AuthorCompanyNamesMember(paper.authors[i].affiliations, name);
      FlaggedCompanyNamesMember(paper.authors[i], name);
    }
  }

  /** Classifying two lists of papers and concatenating is classifying their concatenation. */
  lemma ClassifyPapersConcatenate(xs: seq<PaperRecord>, ys: seq<PaperRecord>)
    ensures ClassifyPapers(xs + ys) == ClassifyPapers(xs) + ClassifyPapers(ys)
  {
    FilterMapAppend(xs, ys, ClassifyPaper);
  }
}
