/** The four extractors of the ingestion script and the dispatch on a file's
    suffix. What the parsing and fetching libraries produce is not modelled:
    a `Library` gives, per file name or URL, what pypdf, python-docx,
    `Path.read_text` and the HTTP fetch with BeautifulSoup would yield, or
    that they raised. The extractors' own decisions (which exceptions they
    catch, which parts they keep, how they join them) are modelled exactly. */
module Extractors {
  import opened Optional
  import opened Text
  import opened Paths

  /** What fetching and parsing one URL comes to. */
  datatype FetchResult =
    | Body(text: string)  // the page's `<body>` text, `get_text(separator='\n', strip=True)`
    | RequestError        // a `requests.RequestException`: connection, timeout or a non-2xx status
    | OtherError          // any other exception, e.g. `AttributeError` for a page with no `<body>`

  /** The foreign libraries, as functions of the entry name or the URL. */
  datatype Library = Library(
    pdfPages: string -> Option<seq<string>>,        // each page's extract_text(); None when pypdf raised
    docxParagraphs: string -> Option<seq<string>>,  // each paragraph's text; None when python-docx raised
    readText: string -> Option<string>,             // read_text(encoding="utf-8"); None when it raised
    fetch: string -> FetchResult)

  /** `extract_from_pdf`: the non-empty page texts joined by newlines; the empty
      string when reading failed. Empty exactly when reading failed or every
      page's text is empty. */
  function PdfText(lib: Library, name: string): (r: string)
    ensures r == "" <==> match lib.pdfPages(name)
                         case None => true
                         case Some(pages) => forall k :: 0 <= k < |pages| ==> pages[k] == ""
  {
    match lib.pdfPages(name)
    case None => ""
    case Some(pages) => JoinNonEmpty(pages)
  }

  /** `extract_from_docx`: the non-empty paragraph texts joined by newlines;
      the empty string when reading failed. */
  function DocxText(lib: Library, name: string): (r: string)
    ensures r == "" <==> match lib.docxParagraphs(name)
                         case None => true
                         case Some(paras) => forall k :: 0 <= k < |paras| ==> paras[k] == ""
  {
    match lib.docxParagraphs(name)
    case None => ""
    case Some(paras) => JoinNonEmpty(paras)
  }

  /** `extract_from_txt`: the file's text, or the empty string when reading
      raised. Empty exactly when reading failed or the file is empty, and
      otherwise the file's whole text. */
  function TxtText(lib: Library, name: string): (r: string)
    ensures r == "" <==> lib.readText(name).None? || lib.readText(name) == Some("")
    ensures r != "" ==> lib.readText(name) == Some(r)
  {
    match lib.readText(name)
    case None => ""
    case Some(text) => text
  }

  /** What a call of `extract_from_url` does: return a string, or let an
      exception escape to its caller. */
  datatype UrlExtraction = Returned(text: string) | Propagated

  /** `extract_from_url`: only `requests.RequestException` is caught and turned
      into the empty string; any other exception escapes. */
  function UrlText(lib: Library, url: string): (r: UrlExtraction)
    ensures r.Propagated? <==> lib.fetch(url).OtherError?
    ensures r == Returned("") <== lib.fetch(url).RequestError?
    ensures r.Returned? && r.text != "" ==> lib.fetch(url) == Body(r.text)
    ensures lib.fetch(url).Body? && lib.fetch(url).text != "" ==> r == Returned(lib.fetch(url).text)
  {
    match lib.fetch(url)
    case Body(text) => Returned(text)
    case RequestError => Returned("")
    case OtherError => Propagated
  }

  /** The extensions the documents loop dispatches on. */
  const Extensions: set<string> := {".pdf", ".docx", ".txt"}

  /** The text the documents loop extracts from the entry `name`: the
      extractor its suffix selects, by exact and case-sensitive comparison,
      and the empty string for every other suffix. */
  function FileContent(lib: Library, name: string): (r: string)
    ensures Suffix(name) !in Extensions ==> r == ""
  {
    var suffix := Suffix(name);
    if suffix == ".pdf" then PdfText(lib, name)
    else if suffix == ".docx" then DocxText(lib, name)
    else if suffix == ".txt" then TxtText(lib, name)
    else ""
  }

  /** A file yields text only when its name ends in ".pdf", ".docx" or ".txt"
      exactly (so "REPORT.PDF" and a file named ".txt" yield nothing) and that
      extractor produced text. */
  lemma ContentNeedsExtension(lib: Library, name: string)
    requires FileContent(lib, name) != ""
    ensures || (|name| > 4 && EndsWith(name, ".pdf"))
            || (|name| > 5 && EndsWith(name, ".docx"))
            || (|name| > 4 && EndsWith(name, ".txt"))
  {
    SuffixIs(name, ".pdf");
    SuffixIs(name, ".docx");
    SuffixIs(name, ".txt");
  }

  /** Which extractor an entry reaches, stated on the name itself. */
  lemma DispatchByName(lib: Library, name: string)
    ensures |name| > 4 && EndsWith(name, ".pdf") ==> FileContent(lib, name) == PdfText(lib, name)
    ensures |name| > 5 && EndsWith(name, ".docx") ==> FileContent(lib, name) == DocxText(lib, name)
    ensures |name| > 4 && EndsWith(name, ".txt") ==> FileContent(lib, name) == TxtText(lib, name)
  {
    SuffixIs(name, ".pdf");
    SuffixIs(name, ".docx");
    SuffixIs(name, ".txt");
  }
}
