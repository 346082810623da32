/** The ingestion driver (`main` of ingest.py): extract text from every entry
    of the documents directory, then from every URL listed in the URL file,
    keep the non-empty results as `{source, content}` records in that order,
    and write them out only when there is at least one. */
module Ingest {
  import opened Optional
  import opened Text
  import opened Paths
  import opened Extractors
  import opened Accumulation

  /** What one run of the script finds on disk. */
  datatype Workspace = Workspace(
    documents: Option<seq<string>>,  // entry names of DOCUMENTS_DIR in iterdir() order; None when it is not a directory
    urlLines: Option<seq<string>>,   // the lines of URLS_FILE as read; None when it is not a file
    outputWritable: bool)            // whether writing OUTPUT_FILE succeeds rather than raising IOError

  /** How a run ends. */
  datatype Outcome =
    | NoOutput                          // nothing extracted: returns before opening the output file
    | Saved(records: seq<Record>)       // the records written as a JSON array
    | SaveFailed(records: seq<Record>)  // the write raised IOError, which is reported and swallowed
    | Crashed(url: string)              // extracting `url` raised past `main`; nothing is written
  {
    predicate WriteAttempted() {
      Saved? || SaveFailed?
    }
  }

  /** The entries the documents loop visits: none when the directory is missing. */
  function Entries(ws: Workspace): seq<string> {
    match ws.documents
    case None => []
    case Some(entries) => entries
  }

  /** The lines the URL loop visits: none when the file is missing. */
  function Lines(ws: Workspace): seq<string> {
    match ws.urlLines
    case None => []
    case Some(lines) => lines
  }

  /** One iteration of the documents loop: a record for the entry when the
      extractor its suffix selects returns text. It never raises. */
  function DocStep(lib: Library, name: string): (s: Step)
    ensures !s.Abort?
    ensures s.Skip? <==> FileContent(lib, name) == ""
    ensures s.Keep? ==> s.record.source == name && s.record.content != ""
                        && s.record.content == FileContent(lib, name) && Suffix(name) in Extensions
  {
    var content := FileContent(lib, name);
    if content != "" then Keep(Record(name, content)) else Skip
  }

  function DocStepOf(lib: Library): string -> Step {
    name => DocStep(lib, name)
  }

  /** The URL a line of the URL file hands to the extractor: the stripped
      line, unless it is empty or starts with '#'. */
  function UrlTarget(line: string): Option<string> {
    var url := Strip(line);
    if url != "" && url[0] != '#' then Some(url) else None
  }

  predicate IsUrlLine(line: string) {
    UrlTarget(line).Some?
  }

  /** A line is used exactly when its first character that is not whitespace
      exists and is not '#'; the extractor then receives the line without its
      surrounding whitespace, which starts with that character. */
  lemma UrlTargetByFirstVisible(line: string, k: nat)
    requires k <= |line| && AllSpace(line[..k]) && (k < |line| ==> !IsSpace(line[k]))
    ensures UrlTarget(line).Some? <==> k < |line| && line[k] != '#'
    ensures UrlTarget(line).Some? ==> var u := UrlTarget(line).value;
              Trims(line, u) && u[0] == line[k] && !IsSpace(u[|u| - 1])
  {
    if k < |line| {
      StripStartsAt(line, k);
    } else {
      assert line == line[..k];
    }
  }

  /** One iteration of the URL loop. */
  function UrlStep(lib: Library, line: string): (s: Step)
    ensures UrlTarget(line).None? ==> s == Skip
    ensures s.Keep? ==> UrlTarget(line) == Some(s.record.source) && s.record.content != ""
                        && lib.fetch(s.record.source) == Body(s.record.content)
    ensures s.Abort? <==> UrlTarget(line).Some? && lib.fetch(UrlTarget(line).value).OtherError?
    ensures s.Abort? ==> UrlTarget(line) == Some(s.url)
    ensures s.Keep? <==> UrlTarget(line).Some? && lib.fetch(UrlTarget(line).value).Body?
                         && lib.fetch(UrlTarget(line).value).text != ""
  {
    match UrlTarget(line)
    case None => Skip
    case Some(url) =>
      match UrlText(lib, url)
      case Propagated => Abort(url)
      case Returned(content) => if content != "" then Keep(Record(url, content)) else Skip
  }

  function UrlStepOf(lib: Library): string -> Step {
    line => UrlStep(lib, line)
  }

  /** The `all_data` list at the end of both loops, or the exception that
      ended the script: document records first, then URL records. */
  function Collected(ws: Workspace, lib: Library): Phase {
    Then(Accumulate(DocStepOf(lib), Entries(ws)), Accumulate(UrlStepOf(lib), Lines(ws)))
  }

  /** What `main` does, as a function of what it finds. */
  function MainOutcome(ws: Workspace, lib: Library): Outcome {
    match Collected(ws, lib)
    case Aborted(url) => Crashed(url)
    case Done(all) =>
      if all == [] then NoOutput
      else if ws.outputWritable then Saved(all)
      else SaveFailed(all)
  }

  /** `main`: the documents loop, then the URL loop appending to the same
      `all_data` list, then the write that happens only when `all_data` is
      not empty. A missing directory or URL file skips that loop only. */
  method RunMain(ws: Workspace, lib: Library) returns (outcome: Outcome)
    ensures outcome == MainOutcome(ws, lib)
  {
    var allData: seq<Record> := [];
    if ws.documents.Some? {
      allData := ExtractDocuments(ws.documents.value, lib);
    }
    var collected := Done(allData);
    if ws.urlLines.Some? {
      collected := ExtractUrls(ws.urlLines.value, lib, allData);
    }
    if collected.Aborted? {
      return Crashed(collected.url);
    }
    allData := collected.records;
    if allData == [] {
      return NoOutput;
    }
    if ws.outputWritable {
      outcome := Saved(allData);
    } else {
      outcome := SaveFailed(allData);
    }
  }

  /** The documents loop of `main`: every entry in directory order, its
      extractor chosen by its suffix, and a record appended when the
      extracted text is not empty. */
  method ExtractDocuments(entries: seq<string>, lib: Library) returns (allData: seq<Record>)
    ensures Accumulate(DocStepOf(lib), entries) == Done(allData)
  {
    allData := [];
    for i := 0 to |entries|
      invariant Accumulate(DocStepOf(lib), entries[..i]) == Done(allData)
    {
      var name := entries[i];
      var content := "";
      var suffix := Suffix(name);
      if suffix == ".pdf" {
        content := PdfText(lib, name);
      } else if suffix == ".docx" {
        content := DocxText(lib, name);
      } else if suffix == ".txt" {
        content := TxtText(lib, name);
      }
      assert content == FileContent(lib, name);
      DocLoopStep(lib, entries, i, allData);
      if content != "" {
        allData := allData + [Record(name, content)];
      }
    }
    assert entries[..|entries|] == entries;
  }

  /** The URL loop of `main`: every line in order, stripped, skipped when
      blank or a comment, and a record appended to `allData` when the page
      text is not empty; an exception from the URL extractor ends the run. */
  method ExtractUrls(lines: seq<string>, lib: Library, allData: seq<Record>) returns (collected: Phase)
    ensures collected == Then(Done(allData), Accumulate(UrlStepOf(lib), lines))
  {
    var records := allData;
    for j := 0 to |lines|
      invariant Accumulate(UrlStepOf(lib), lines[..j]).Done?
      invariant records == allData + Accumulate(UrlStepOf(lib), lines[..j]).records
    {
      ghost var acc := Accumulate(UrlStepOf(lib), lines[..j]).records;
      UrlLoopStep(lib, lines, j, acc);
      var url := Strip(lines[j]);
      if url != "" && url[0] != '#' {
        var extracted := UrlText(lib, url);
        if extracted.Propagated? {
          AbortEndsRun(lib, lines, j + 1);
          return Aborted(url);
        }
        var content := extracted.text;
        if content != "" {
          assert allData + (acc + [Record(url, content)]) == records + [Record(url, content)];
          records := records + [Record(url, content)];
        }
      }
    }
    assert lines[..|lines|] == lines;
    collected := Done(records);
  }

  /** One more entry: its record, if any, goes at the end. */
  lemma DocLoopStep(lib: Library, entries: seq<string>, i: nat, acc: seq<Record>)
    requires i < |entries| && Accumulate(DocStepOf(lib), entries[..i]) == Done(acc)
    ensures var content := FileContent(lib, entries[i]);
            Accumulate(DocStepOf(lib), entries[..i + 1])
            == if content != "" then Done(acc + [Record(entries[i], content)]) else Done(acc)
  {
    assert entries[..i + 1][..i] == entries[..i];
  }

  /** One more line: skipped, appended, or the end of the run. */
  lemma UrlLoopStep(lib: Library, lines: seq<string>, j: nat, acc: seq<Record>)
    requires j < |lines| && Accumulate(UrlStepOf(lib), lines[..j]) == Done(acc)
    ensures var url := Strip(lines[j]);
            Accumulate(UrlStepOf(lib), lines[..j + 1])
            == if url != "" && url[0] != '#' then
                 match UrlText(lib, url)
                 case Propagated => Aborted(url)
                 case Returned(content) =>
                   if content != "" then Done(acc + [Record(url, content)]) else Done(acc)
               else Done(acc)
  {
    assert lines[..j + 1][..j] == lines[..j];
  }

  /** Once a line aborts the run, the remaining lines change nothing. */
  lemma AbortEndsRun(lib: Library, lines: seq<string>, j: nat)
    requires j <= |lines| && Accumulate(UrlStepOf(lib), lines[..j]).Aborted?
    ensures Accumulate(UrlStepOf(lib), lines) == Accumulate(UrlStepOf(lib), lines[..j])
  {
    assert lines[..j] + lines[j..] == lines;
    AccumulateAppend(UrlStepOf(lib), lines[..j], lines[j..]);
  }

  /** A run crashes exactly when the extraction of some used URL line raises
      past `main`, and then with the URL of the first such line. */
  lemma CrashCases(ws: Workspace, lib: Library)
    ensures MainOutcome(ws, lib).Crashed?
            <==> exists j :: 0 <= j < |Lines(ws)| && UrlStepOf(lib)(Lines(ws)[j]).Abort?
    ensures MainOutcome(ws, lib).Crashed? ==>
              && Accumulate(UrlStepOf(lib), Lines(ws)).Aborted?
              && var j := FirstAbort(UrlStepOf(lib), Lines(ws));
                 UrlTarget(Lines(ws)[j]) == Some(MainOutcome(ws, lib).url)
  {
    AccumulateDone(DocStepOf(lib), Entries(ws));
    AccumulateDone(UrlStepOf(lib), Lines(ws));
  }

  /** Without a crash, the output is written exactly when some entry or some
      line yields a record, and `main` returns without writing exactly when
      none does. */
  lemma WriteCases(ws: Workspace, lib: Library)
    requires !MainOutcome(ws, lib).Crashed?
    ensures MainOutcome(ws, lib).WriteAttempted()
            <==> || (exists i :: 0 <= i < |Entries(ws)| && DocStepOf(lib)(Entries(ws)[i]).Keep?)
                 || (exists j :: 0 <= j < |Lines(ws)| && UrlStepOf(lib)(Lines(ws)[j]).Keep?)
    ensures MainOutcome(ws, lib).Saved? ==> ws.outputWritable
    ensures MainOutcome(ws, lib).SaveFailed? ==> !ws.outputWritable
  {
    AccumulateDone(DocStepOf(lib), Entries(ws));
    AccumulateEmpty(DocStepOf(lib), Entries(ws));
    AccumulateEmpty(UrlStepOf(lib), Lines(ws));
  }

  /** The origin of each written record: every record is what its entry or
      line yields, the records follow the output order (documents in
      directory order before URLs in line order), and every entry or line
      that yields a record has its record in the output. */
  ghost function Origins(ws: Workspace, lib: Library): (p: seq<Origin>)
    requires MainOutcome(ws, lib).WriteAttempted()
    ensures |p| == |MainOutcome(ws, lib).records|
    ensures forall k :: 0 <= k < |p| ==>
              Yields(DocStepOf(lib), Entries(ws), UrlStepOf(lib), Lines(ws), p[k], MainOutcome(ws, lib).records[k])
    ensures forall k, l :: 0 <= k < l < |p| ==> Precedes(p[k], p[l])
    ensures forall i :: 0 <= i < |Entries(ws)| && DocStepOf(lib)(Entries(ws)[i]).Keep? ==> First(i) in p
    ensures forall j :: 0 <= j < |Lines(ws)| && UrlStepOf(lib)(Lines(ws)[j]).Keep? ==> Second(j) in p
  {
    ThenPositions(DocStepOf(lib), Entries(ws), UrlStepOf(lib), Lines(ws))
  }
  /** Every written record is one that an entry or a used line yields, and
      every record an entry or a used line yields is written: a document
      record names its entry and holds the non-empty text the extractor for
      its suffix returned, a URL record names the stripped line and holds
      the non-empty page text fetched from it. */
  lemma RecordsFaithful(ws: Workspace, lib: Library, rec: Record)
    requires MainOutcome(ws, lib).WriteAttempted()
    ensures rec in MainOutcome(ws, lib).records
            <==> || (exists i :: 0 <= i < |Entries(ws)| && DocStepOf(lib)(Entries(ws)[i]) == Keep(rec))
                 || (exists j :: 0 <= j < |Lines(ws)| && UrlStepOf(lib)(Lines(ws)[j]) == Keep(rec))
    ensures rec in MainOutcome(ws, lib).records ==>
              && rec.content != ""
              && ( || (rec.source in Entries(ws) && Suffix(rec.source) in Extensions
                       && rec.content == FileContent(lib, rec.source))
                   || (exists j :: 0 <= j < |Lines(ws)| && UrlTarget(Lines(ws)[j]) == Some(rec.source)
                                   && lib.fetch(rec.source) == Body(rec.content)))
  {
    var docs, urls := Accumulate(DocStepOf(lib), Entries(ws)), Accumulate(UrlStepOf(lib), Lines(ws));
    assert MainOutcome(ws, lib).records == docs.records + urls.records;
    AccumulateMembers(DocStepOf(lib), Entries(ws), rec);
    AccumulateMembers(UrlStepOf(lib), Lines(ws), rec);
    if rec in docs.records {
      var i :| 0 <= i < |Entries(ws)| && DocStepOf(lib)(Entries(ws)[i]) == Keep(rec);
      assert DocStep(lib, Entries(ws)[i]) == Keep(rec);
    }
    if rec in urls.records {
      var j :| 0 <= j < |Lines(ws)| && UrlStepOf(lib)(Lines(ws)[j]) == Keep(rec);
      assert UrlStep(lib, Lines(ws)[j]) == Keep(rec);
    }
  }

  /** Without a crash, the number of records is the number of entries whose
      text is non-empty plus the number of used lines whose page text is
      non-empty; so at most the entries plus the used lines. Nothing is
      written exactly when that number is zero. */
  lemma RecordCount(ws: Workspace, lib: Library)
    requires !MainOutcome(ws, lib).Crashed?
    ensures var n := KeptCount(DocStepOf(lib), Entries(ws)) + KeptCount(UrlStepOf(lib), Lines(ws));
            && (MainOutcome(ws, lib).WriteAttempted() ==> |MainOutcome(ws, lib).records| == n)
            && (MainOutcome(ws, lib).NoOutput? <==> n == 0)
            && n <= |Entries(ws)| + CountWhere(IsUrlLine, Lines(ws))
  {
    var docs, urls := Accumulate(DocStepOf(lib), Entries(ws)), Accumulate(UrlStepOf(lib), Lines(ws));
    AccumulateDone(DocStepOf(lib), Entries(ws));
    AccumulateCount(DocStepOf(lib), Entries(ws));
    AccumulateCount(UrlStepOf(lib), Lines(ws));
    assert |docs.records + urls.records| == |docs.records| + |urls.records|;
    KeptCountBound(DocStepOf(lib), _ => true, Entries(ws));
    KeptCountBound(UrlStepOf(lib), IsUrlLine, Lines(ws));
  }

  /** A missing documents directory or URL file contributes no records and
      does not keep the other loop from running: the run is that of the
      other loop alone. */
  lemma MissingInputs(ws: Workspace, lib: Library)
    ensures ws.documents.None? ==> Collected(ws, lib) == Accumulate(UrlStepOf(lib), Lines(ws))
    ensures ws.urlLines.None? ==> Collected(ws, lib) == Accumulate(DocStepOf(lib), Entries(ws))
  {
    var docs, urls := Accumulate(DocStepOf(lib), Entries(ws)), Accumulate(UrlStepOf(lib), Lines(ws));
    if ws.documents.None? {
      assert docs == Done([]);
      if urls.Done? {
        assert [] + urls.records == urls.records;
      }
    }
    if ws.urlLines.None? {
      assert urls == Done([]);
      if docs.Done? {
        assert docs.records + [] == docs.records;
      }
    }
  }

}
