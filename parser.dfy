/** The metadata extractor of `pharma_papers/parser.py`. The XML tree is not modelled; a parsed
 *  `PubmedArticle` is given as the abstract `ArticleElement` below, holding what the extractor's
 *  path searches find, in document order. An optional text is `None` when the element is absent
 *  or has no text. */
module Parser {

  import opened Basics
  import opened Strings
  import Email

  datatype PubDate = PubDate(year: Option<string>, month: Option<string>, day: Option<string>)

  /** An `Author` element: `LastName`, `ForeName`, the `Affiliation` text inside each
      `AffiliationInfo`, and a direct `Affiliation` child. */
  datatype AuthorElement = AuthorElement(
    lastName: Option<string>,
    foreName: Option<string>,
    affiliationInfos: seq<Option<string>>,
    affiliation: Option<string>)

  /** An `ArticleId` (with its `IdType` attribute) or an `ELocationID` (with its `EIdType`). */
  datatype IdElement = IdElement(idType: Option<string>, text: Option<string>)

  /** A `PubmedArticle`: the first `PMID`, `ArticleTitle`, `PubDate` and `AuthorList` elements,
      all `ArticleId` and `ELocationID` elements, and the texts of `FootnoteList/Footnote`. */
  datatype ArticleElement = ArticleElement(
    pmid: Option<string>,
    title: Option<string>,
    pubDate: Option<PubDate>,
    authorList: Option<seq<AuthorElement>>,
    articleIds: seq<IdElement>,
    eLocationIds: seq<IdElement>,
    footnotes: seq<Option<string>>)

  /** A fetched batch: either not well-formed, or its `PubmedArticle` elements in order. */
  datatype Document = Malformed | WellFormed(articles: seq<ArticleElement>)

  datatype Author = Author(name: string, affiliations: seq<string>)

  /** The dictionary `_extract_paper_info` returns: exactly these five keys. */
  datatype PaperRecord = PaperRecord(
    pubmedId: string,
    title: string,
    publicationDate: string,
    authors: seq<Author>,
    correspondingEmail: string)

  const UNKNOWN_TITLE := "Unknown Title"
  const UNKNOWN_DATE := "Unknown Date"
  const NO_YEAR := "????"
  const NO_PART := "??"

  /** `elem.text if elem is not None and elem.text else fallback`. */
  function TextOr(text: Option<string>, fallback: string): (r: string)
    ensures text.Some? && text.value != "" ==> r == text.value
    ensures text.None? || text.value == "" ==> r == fallback
  {
    if text.Some? && text.value != "" then text.value else fallback
  }

  /** A date part the extractor treats as present: a non-empty text other than its sentinel. */
  predicate Given(text: Option<string>, sentinel: string)
  {
    text.Some? && text.value != "" && text.value != sentinel
  }

  // ---------------------------------------------------------------------------------------
  // Publication date

  /** The keys of the source's month table in the order of their values: the k-th abbreviation
      maps to the two-digit number k + 1. */
  const MONTH_NAMES: seq<string> :=
    ["Jan", "Feb", "Mar", "Apr", "May", "Jun", "Jul", "Aug", "Sep", "Oct", "Nov", "Dec"]

  /** The position of `month` among the abbreviations at or after `k`. */
  function MonthPosition(month: string, k: nat := 0): (r: Option<nat>)
    requires k <= |MONTH_NAMES|
    ensures r.Some? ==> k <= r.value < |MONTH_NAMES| && MONTH_NAMES[r.value] == month
    ensures r.None? ==> forall j :: k <= j < |MONTH_NAMES| ==> MONTH_NAMES[j] != month
    decreases |MONTH_NAMES| - k
  {
    if k == |MONTH_NAMES| then None
    else if MONTH_NAMES[k] == month then Some(k)
    else MonthPosition(month, k + 1)
  }

  /** `month_map.get(month, month)`. */
  function NormalizeMonth(month: string): (r: string)
    ensures month !in MONTH_NAMES ==> r == month
    ensures month in MONTH_NAMES ==> |r| == 2 && '0' <= r[0] <= '9' && '0' <= r[1] <= '9'
  {
    match MonthPosition(month)
    case Some(k) => TwoDigits(k + 1)
    case None => month
  }

  /** The two-digit decimal form of `n`. */
  function TwoDigits(n: nat): (r: string)
    requires n < 100
    ensures |r| == 2 && '0' <= r[0] <= '9' && '0' <= r[1] <= '9'
  {
    [('0' as int + n / 10) as char, ('0' as int + n % 10) as char]
  }

  /** The abbreviations are distinct and begin with a capital letter. */
  lemma MonthNamesDistinct()
    ensures forall i, j :: 0 <= i < j < |MONTH_NAMES| ==> MONTH_NAMES[i] != MONTH_NAMES[j]
    ensures forall i :: 0 <= i < |MONTH_NAMES| ==> |MONTH_NAMES[i]| == 3 && IsUpper(MONTH_NAMES[i][0])
  {
  }

  /** The k-th month abbreviation becomes the two-digit number k + 1. */
  lemma NormalizeMonthByPosition(k: nat)
    requires k < |MONTH_NAMES|
    ensures NormalizeMonth(MONTH_NAMES[k]) == TwoDigits(k + 1)
  {
    MonthNamesDistinct();
  }

  /** Any text other than a month abbreviation is left as it is. */
  lemma NormalizeMonthOther(month: string)
    requires month !in MONTH_NAMES
    ensures NormalizeMonth(month) == month
  {
  }

  /** Normalising an already normalised month changes nothing: numbers pass through. */
  lemma NormalizeMonthIdempotent(month: string)
    ensures NormalizeMonth(NormalizeMonth(month)) == NormalizeMonth(month)
  {
    if MonthPosition(month).Some? {
      var number := TwoDigits(MonthPosition(month).value + 1);
      MonthNamesDistinct();
      assert number !in MONTH_NAMES;
    }
  }

  /** `_extract_publication_date`: "Unknown Date" without a PubDate or without a usable year;
      otherwise the date begins with the year. */
  function PublicationDate(pubDate: Option<PubDate>): (r: string)
    ensures pubDate.None? || !Given(pubDate.value.year, NO_YEAR) ==> r == UNKNOWN_DATE
    ensures pubDate.Some? && Given(pubDate.value.year, NO_YEAR) ==>
      var year := pubDate.value.year.value;
      |year| <= |r| && r[..|year|] == year
  {
    match pubDate
    case None => UNKNOWN_DATE
    case Some(d) =>
      var year := TextOr(d.year, NO_YEAR);
      var month := NormalizeMonth(TextOr(d.month, NO_PART));
      var day := TextOr(d.day, NO_PART);
      if year != NO_YEAR then
        if month != NO_PART && day != NO_PART then year + "-" + month + "-" + day
        else if month != NO_PART then year + "-" + month
        else year
      else UNKNOWN_DATE
  }

  /** The parts a date carries: the year, then the normalised month if present, then the day
      if the month and the day are both present. */
  function DateFields(d: PubDate): (fields: seq<string>)
    requires Given(d.year, NO_YEAR)
  {
    [d.year.value]
    + (if Given(d.month, NO_PART) then
         [NormalizeMonth(d.month.value)] + (if Given(d.day, NO_PART) then [d.day.value] else [])
       else [])
  }

  /** The normalised month is the sentinel only when no month is given, and a month without
      "-" stays without "-". */
  lemma NormalizedMonthPart(month: Option<string>)
    requires month.Some? ==> '-' !in month.value
    ensures var m := NormalizeMonth(TextOr(month, NO_PART));
      (m != NO_PART <==> Given(month, NO_PART)) && '-' !in m
  {
    NormalizedMonthGiven(month);
    if month.Some? && MonthPosition(month.value).Some? {
      var m := NormalizeMonth(month.value);
      assert m[0] != '-' && m[1] != '-';
    }
  }

  /** Whatever its text, the normalised month is the sentinel only when no month is given. */
  lemma NormalizedMonthGiven(month: Option<string>)
    ensures NormalizeMonth(TextOr(month, NO_PART)) != NO_PART <==> Given(month, NO_PART)
  {
    if month.Some? && MonthPosition(month.value).Some? {
      assert NormalizeMonth(month.value)[0] != '?';
    }
  }

  /** With a year, the date is the parts present joined with "-", whatever the parts' texts:
      year-month-day, year-month without a day, and the year alone without a month. */
  lemma DateComposed(d: PubDate)
    requires Given(d.year, NO_YEAR)
    ensures PublicationDate(Some(d)) == Join(DateFields(d), "-")
  {
    NormalizedMonthGiven(d.month);
    var year := d.year.value;
    var month := NormalizeMonth(TextOr(d.month, NO_PART));
    var day := TextOr(d.day, NO_PART);
    if month != NO_PART && day != NO_PART {
      assert Given(d.day, NO_PART);
      assert DateFields(d) == [year, month, day];
      assert [year, month, day][1..] == [month, day];
      assert [month, day][1..] == [day];
      assert Join([month, day], "-") == month + "-" + day;
      assert year + "-" + month + "-" + day == year + "-" + (month + "-" + day);
    } else if month != NO_PART {
      assert DateFields(d) == [year, month];
      assert [year, month][1..] == [month];
    } else {
      assert DateFields(d) == [year];
    }
  }

  /** With a year, the composed date splits back on "-" into exactly the parts present: a day
      without a month is dropped, and a month name comes back as its number. */
  lemma DateRoundTrip(d: PubDate)
    requires Given(d.year, NO_YEAR)
    requires '-' !in d.year.value
    requires d.month.Some? ==> '-' !in d.month.value
    requires d.day.Some? ==> '-' !in d.day.value
    ensures SplitOn(PublicationDate(Some(d)), '-') == DateFields(d)
  {
    var year := d.year.value;
    var month := NormalizeMonth(TextOr(d.month, NO_PART));
    var day := TextOr(d.day, NO_PART);
    NormalizedMonthPart(d.month);
    if month != NO_PART && day != NO_PART {
      assert year + "-" + month + "-" + day == year + ['-'] + (month + ['-'] + day);
      SplitOnGlued(year, '-', month + ['-'] + day);
      SplitOnGlued(month, '-', day);
      SplitOnWhole(day, '-');
    } else if month != NO_PART {
      assert year + "-" + month == year + ['-'] + month;
      SplitOnGlued(year, '-', month);
      SplitOnWhole(month, '-');
    } else {
      SplitOnWhole(year, '-');
    }
  }

  // ---------------------------------------------------------------------------------------
  // Authors and their affiliations

  function NonEmptyText(text: Option<string>): Option<string>
  {
    if text.Some? && text.value != "" then text else None
  }

  /** The non-empty `AffiliationInfo/Affiliation` texts in order, then the direct `Affiliation`
      text if it is non-empty. */
  function AffiliationsOf(e: AuthorElement): seq<string>
  {
    FilterMap(e.affiliationInfos, NonEmptyText) + Keep(NonEmptyText(e.affiliation))
  }

  /** An author is kept when it has a `LastName` element with text; its name is
      `f"{fore_name} {last_name}".strip()`. */
  function AuthorOf(e: AuthorElement): Option<Author>
  {
    match e.lastName
    case None => None
    case Some(last) => Some(Author(Strip(TextOr(e.foreName, "") + " " + last), AffiliationsOf(e)))
  }

  function AuthorsOf(authorList: Option<seq<AuthorElement>>): seq<Author>
  {
    match authorList
    case None => []
    case Some(elements) => FilterMap(elements, AuthorOf)
  }

  /** `_extract_authors`: a loop over the Author elements that appends the authors it keeps. */
  method ExtractAuthors(article: ArticleElement) returns (authors: seq<Author>)
    ensures authors == AuthorsOf(article.authorList)
  {
    if article.authorList.None? {
      return [];
    }
    var elements := article.authorList.value;
    authors := [];
    for i := 0 to |elements|
      invariant authors == FilterMap(elements[..i], AuthorOf)
    {
      var e := elements[i];
      PrefixSnoc(elements, i);
      FilterMapSnoc(elements[..i], e, AuthorOf);
      if e.lastName.None? {
        continue;
      }
      var lastName := e.lastName.value;
      var foreName := if e.foreName.Some? && e.foreName.value != "" then e.foreName.value else "";
      var name := Strip(foreName + " " + lastName);
      var affiliations := CollectAffiliations(e);
      assert AuthorOf(e) == Some(Author(name, affiliations));
      authors := authors + [Author(name, affiliations)];
    }
    assert elements[..|elements|] == elements;
  }

  /** The inner loop of `_extract_authors` over the AffiliationInfo elements, then the direct
      Affiliation. */
  method CollectAffiliations(e: AuthorElement) returns (affiliations: seq<string>)
    ensures affiliations == AffiliationsOf(e)
  {
    affiliations := [];
    for j := 0 to |e.affiliationInfos|
      invariant affiliations == FilterMap(e.affiliationInfos[..j], NonEmptyText)
    {
      var info := e.affiliationInfos[j];
      PrefixSnoc(e.affiliationInfos, j);
      FilterMapSnoc(e.affiliationInfos[..j], info, NonEmptyText);
      if info.Some? && info.value != "" {
        affiliations := affiliations + [info.value];
      }
    }
    assert e.affiliationInfos[..|e.affiliationInfos|] == e.affiliationInfos;
    if e.affiliation.Some? && e.affiliation.value != "" {
      affiliations := affiliations + [e.affiliation.value];
    }
  }

  /** An Author element without a LastName is skipped and leaves the others as they are. */
  lemma AuthorWithoutLastNameSkipped(before: seq<AuthorElement>, e: AuthorElement, after: seq<AuthorElement>)
    requires e.lastName.None?
    ensures AuthorsOf(Some(before + [e] + after)) == AuthorsOf(Some(before)) + AuthorsOf(Some(after))
  {
    FilterMapAppend(before + [e], after, AuthorOf);
    FilterMapAppend(before, [e], AuthorOf);
  }

  /** Without a ForeName the display name is the trimmed LastName. */
  lemma NameWithoutForeName(e: AuthorElement)
    requires e.lastName.Some? && (e.foreName.None? || e.foreName == Some(""))
    ensures AuthorOf(e).Some? && AuthorOf(e).value.name == Strip(e.lastName.value)
  {
    var last := e.lastName.value;
    assert TextOr(e.foreName, "") + " " + last == [' '] + last;
    StripLeadingSpace(last);
  }

  /** The affiliations of an author are the non-empty texts of its AffiliationInfo elements and
      of its direct Affiliation, and nothing else. */
  lemma AffiliationsMember(e: AuthorElement, x: string)
    ensures x in AffiliationsOf(e) <==> x != "" && (Some(x) in e.affiliationInfos || e.affiliation == Some(x))
  {
    FilterMapMember(e.affiliationInfos, NonEmptyText, x);
    if Some(x) in e.affiliationInfos && x != "" {
      var i :| 0 <= i < |e.affiliationInfos| && e.affiliationInfos[i] == Some(x);
      assert NonEmptyText(e.affiliationInfos[i]) == Some(x);
    }
  }

  // ---------------------------------------------------------------------------------------
  // Corresponding email

  /** An id element typed "email" decides with its text, or "" when it has none. */
  function EmailIdText(id: IdElement): Option<string>
  {
    if id.idType == Some("email") then Some(TextOr(id.text, "")) else None
  }

  function EmailInText(text: Option<string>): Option<string>
  {
    if text.Some? && text.value != "" then Email.FindEmail(text.value) else None
  }

  /** A footnote is searched only when its lower-cased text mentions correspondence or email. */
  function EmailInFootnote(text: Option<string>): Option<string>
  {
    if text.Some? && text.value != ""
       && (Contains(Lower(text.value), "correspondence") || Contains(Lower(text.value), "email"))
    then Email.FindEmail(text.value)
    else None
  }

  /** The Affiliation elements of the Author elements in document order: for each author its
      AffiliationInfo texts, then its direct Affiliation. */
  function AffiliationElements(elements: seq<AuthorElement>): seq<Option<string>>
  {
    if elements == [] then []
    else
      var last := elements[|elements| - 1];
      AffiliationElements(elements[..|elements| - 1]) + last.affiliationInfos + [last.affiliation]
  }

  function ArticleAffiliations(article: ArticleElement): seq<Option<string>>
  {
    match article.authorList
    case None => []
    case Some(elements) => AffiliationElements(elements)
  }

  function CorrespondingEmail(article: ArticleElement): string
  {
    match FirstSome(article.articleIds, EmailIdText)
    case Some(text) => text
    case None =>
      match FirstSome(ArticleAffiliations(article), EmailInText)
      case Some(found) => found
      case None =>
        match FirstSome(article.eLocationIds, EmailIdText)
        case Some(text) => text
        case None =>
          match FirstSome(article.footnotes, EmailInFootnote)
          case Some(found) => found
          case None => ""
  }

  predicate NoEmailId(ids: seq<IdElement>)
  {
    forall i :: 0 <= i < |ids| ==> ids[i].idType != Some("email")
  }

  /** 1. The first ArticleId typed "email" decides, even when it has no text. */
  lemma ArticleIdDecides(article: ArticleElement, k: nat)
    requires k < |article.articleIds| && article.articleIds[k].idType == Some("email")
    requires NoEmailId(article.articleIds[..k])
    ensures CorrespondingEmail(article) == TextOr(article.articleIds[k].text, "")
  {
    assert forall j :: 0 <= j < k ==> article.articleIds[..k][j] == article.articleIds[j];
    FirstSomeAt(article.articleIds, EmailIdText, k);
  }

  /** 2. Otherwise the first address found in an Affiliation text decides. */
  lemma AffiliationDecides(article: ArticleElement, k: nat)
    requires NoEmailId(article.articleIds)
    requires k < |ArticleAffiliations(article)| && EmailInText(ArticleAffiliations(article)[k]).Some?
    requires forall j :: 0 <= j < k ==> EmailInText(ArticleAffiliations(article)[j]).None?
    ensures CorrespondingEmail(article) == EmailInText(ArticleAffiliations(article)[k]).value
  {
    FirstSomeAt(ArticleAffiliations(article), EmailInText, k);
  }

  /** 3. Otherwise the first ELocationID typed "email" decides, even when it has no text. */
  lemma ELocationDecides(article: ArticleElement, k: nat)
    requires NoEmailId(article.articleIds)
    requires forall j :: 0 <= j < |ArticleAffiliations(article)| ==> EmailInText(ArticleAffiliations(article)[j]).None?
    requires k < |article.eLocationIds| && article.eLocationIds[k].idType == Some("email")
    requires NoEmailId(article.eLocationIds[..k])
    ensures CorrespondingEmail(article) == TextOr(article.eLocationIds[k].text, "")
  {
    assert forall j :: 0 <= j < k ==> article.eLocationIds[..k][j] == article.eLocationIds[j];
    FirstSomeAt(article.eLocationIds, EmailIdText, k);
  }

  /** 4. Otherwise the first address in a footnote that mentions correspondence or email;
      5. and "" when no source gives one. */
  lemma FootnoteDecides(article: ArticleElement)
    requires NoEmailId(article.articleIds) && NoEmailId(article.eLocationIds)
    requires forall j :: 0 <= j < |ArticleAffiliations(article)| ==> EmailInText(ArticleAffiliations(article)[j]).None?
    ensures CorrespondingEmail(article) == match FirstSome(article.footnotes, EmailInFootnote)
                                         case Some(found) => found
                                         case None => ""
    ensures CorrespondingEmail(article) != "" ==> Email.IsAddress(CorrespondingEmail(article))
  {
    assert FirstSome(article.articleIds, EmailIdText).None?;
    assert FirstSome(ArticleAffiliations(article), EmailInText).None?;
    assert FirstSome(article.eLocationIds, EmailIdText).None?;
    var r := FirstSome(article.footnotes, EmailInFootnote);
    if r.Some? {
      var k :| 0 <= k < |article.footnotes| && EmailInFootnote(article.footnotes[k]) == r;
      FoundIsAddress(article.footnotes[k].value);
    }
  }

  lemma FoundIsAddress(text: string)
    requires Email.FindEmail(text).Some?
    ensures Email.IsAddress(Email.FindEmail(text).value)
  {
  }

  /** Whatever source decides, the result is "", the text of an id element typed "email", or
      an address found by the scanner. */
  lemma EmailSources(article: ArticleElement)
    ensures var r := CorrespondingEmail(article);
      r == "" || Email.IsAddress(r)
      || (exists i :: 0 <= i < |article.articleIds| && article.articleIds[i].text == Some(r))
      || (exists i :: 0 <= i < |article.eLocationIds| && article.eLocationIds[i].text == Some(r))
  {
    var r := CorrespondingEmail(article);
    var ids := FirstSome(article.articleIds, EmailIdText);
    if ids.Some? {
      var k :| 0 <= k < |article.articleIds| && EmailIdText(article.articleIds[k]) == ids;
      return;
    }
    var affs := FirstSome(ArticleAffiliations(article), EmailInText);
    if affs.Some? {
      var k :| 0 <= k < |ArticleAffiliations(article)| && EmailInText(ArticleAffiliations(article)[k]) == affs;
      return;
    }
    var elocs := FirstSome(article.eLocationIds, EmailIdText);
    if elocs.Some? {
      var k :| 0 <= k < |article.eLocationIds| && EmailIdText(article.eLocationIds[k]) == elocs;
      return;
    }
    var notes := FirstSome(article.footnotes, EmailInFootnote);
    if notes.Some? {
      var k :| 0 <= k < |article.footnotes| && EmailInFootnote(article.footnotes[k]) == notes;
    }
  }

  // ---------------------------------------------------------------------------------------
  // Articles and batches

  /** `_extract_paper_info` as a value: None when the PMID is missing or empty. */
  function PaperOf(article: ArticleElement): Option<PaperRecord>
  {
    match article.pmid
    case None => None
    case Some(pmid) =>
      if pmid == "" then None
      else Some(PaperRecord(
        pmid,
        TextOr(article.title, UNKNOWN_TITLE),
        PublicationDate(article.pubDate),
        AuthorsOf(article.authorList),
        CorrespondingEmail(article)))
  }

  method ExtractPaperInfo(article: ArticleElement) returns (paper: Option<PaperRecord>)
    ensures paper == PaperOf(article)
  {
    if article.pmid.None? || article.pmid.value == "" {
      return None;
    }
    var pmid := article.pmid.value;
    var title := TextOr(article.title, UNKNOWN_TITLE);
    var pubDate := PublicationDate(article.pubDate);
    var authors := ExtractAuthors(article);
    var email := CorrespondingEmail(article);
    return Some(PaperRecord(pmid, title, pubDate, authors, email));
  }

  /** A record is produced exactly for an article with a non-empty PMID; it carries that PMID,
      and the title sentinel stands in for a missing or empty title. */
  lemma PaperOfFields(article: ArticleElement)
    ensures PaperOf(article).Some? <==> article.pmid.Some? && article.pmid.value != ""
    ensures PaperOf(article).Some? ==> PaperOf(article).value.pubmedId == article.pmid.value
    ensures PaperOf(article).Some? ==>
      (PaperOf(article).value.title == UNKNOWN_TITLE <==> article.title.None? || article.title.value in {"", UNKNOWN_TITLE})
  {
  }

  function ParsedBatch(doc: Document): seq<PaperRecord>
  {
    match doc
    case Malformed => []
    case WellFormed(articles) => FilterMap(articles, PaperOf)
  }

  /** `parse_xml_batch`: the records of the articles that have one, in document order. */
  method ParseXmlBatch(doc: Document) returns (papers: seq<PaperRecord>)
    ensures papers == ParsedBatch(doc)
  {
    if doc.Malformed? {
      return [];
    }
    var articles := doc.articles;
    papers := [];
    for i := 0 to |articles|
      invariant papers == FilterMap(articles[..i], PaperOf)
    {
      PrefixSnoc(articles, i);
      FilterMapSnoc(articles[..i], articles[i], PaperOf);
      var info := ExtractPaperInfo(articles[i]);
      if info.Some? {
        papers := papers + [info.value];
      }
    }
    assert articles[..|articles|] == articles;
  }

  /** The records keep document order: record k comes from article idx[k], the indices
      increase, and every article with a non-empty PMID yields a record. */
  lemma ParsedInDocumentOrder(articles: seq<ArticleElement>) returns (idx: seq<nat>)
    ensures |idx| == |ParsedBatch(WellFormed(articles))| <= |articles|
    ensures forall k :: 0 <= k < |idx| ==>
      (idx[k] < |articles| && PaperOf(articles[idx[k]]) == Some(ParsedBatch(WellFormed(articles))[k])
       && articles[idx[k]].pmid == Some(ParsedBatch(WellFormed(articles))[k].pubmedId))
    ensures forall k, l :: 0 <= k < l < |idx| ==> idx[k] < idx[l]
    ensures forall i :: 0 <= i < |articles| && articles[i].pmid.Some? && articles[i].pmid.value != "" ==> i in idx
  {
    idx := FilterMapIndices(articles, PaperOf);
  }

  /** Batch boundaries do not matter: extracting two batches and concatenating is extracting
      their concatenation. */
  lemma BatchesConcatenate(xs: seq<ArticleElement>, ys: seq<ArticleElement>)
    ensures ParsedBatch(WellFormed(xs + ys)) == ParsedBatch(WellFormed(xs)) + ParsedBatch(WellFormed(ys))
  {
    FilterMapAppend(xs, ys, PaperOf);
  }
}
