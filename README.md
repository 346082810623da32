# Document ingestion driver, modelled in Dafny

This project models the ingestion script `ingest.py`. The script collects
text from two kinds of source and writes it out as one JSON array of
`{"source", "content"}` records. The first source is the entries of the
`documents` directory; the second is the URLs listed in `urls.txt`.

What the model covers:

- **Dispatch.** Each directory entry goes to the PDF, DOCX or plain-text
  extractor. The choice is an exact, case-sensitive match of its pathlib
  suffix against `.pdf`, `.docx` and `.txt`. Any other entry yields the
  empty string.
- **URL filtering.** Each line of the URL file is stripped of surrounding
  whitespace, as `str.strip()` does. A line that is then empty or starts
  with `#` is passed over. Every other line is handed, stripped, to the URL
  extractor.
- **Which results are kept.** Only a non-empty extraction becomes a record.
  Document records come first, in directory order; URL records follow, in
  line order.
- **The write decision.** Nothing is written when there are no records.
  Otherwise the write is attempted; an `IOError` is reported and swallowed.
- **The join.** The PDF and DOCX extractors join the non-empty page or
  paragraph texts with newlines.

The parsing and fetching libraries are not modelled. A `Library` value
gives, for each file name or URL, what pypdf, python-docx,
`Path.read_text` and the HTTP fetch with BeautifulSoup would produce, or
that they raised. What the extractors decide themselves is modelled exactly:
which exceptions they catch, which parts they keep, and how they join them.
The directory listing, the lines of the URL file and whether the output file
can be written are inputs too, gathered in a `Workspace`.

`extract_from_url` catches only `requests.RequestException`. Any other
exception escapes it and ends `main` before anything is written. One example
is the `AttributeError` raised for a page with no `<body>` element. The model
follows the code: such a fetch is `OtherError`, and the run ends as
`Crashed(url)`. Unlike the three file extractors, which catch every
`Exception` (ingest.py:21, 30, 39), `extract_from_url` can raise past
`main`.

Modules:

- `Optional`: the `Option` type.
- `Text`: `str.strip()`, `str.join`, `str.split` on one character, and the
  "join only the non-empty parts" shape.
- `Paths`: pathlib's `suffix`.
- `Extractors`: the four `extract_from_*` functions and the dispatch on the
  suffix.
- `Accumulation`: the generic filter-and-append rule with an abort. It covers
  the run's records, their order, their count and where each one comes from.
- `Ingest`: `main`, written as methods with loops and proved equal to the
  function `MainOutcome`, plus lemmas about that function.

## Model

| member | source | states |
|---|---|---|
| Text.StripStart | ingest.py:84 | The result is a suffix of the line, everything dropped is whitespace, and the result does not start with whitespace. |
| Text.StripEnd | ingest.py:84 | The result is a prefix of the line, everything dropped is whitespace, and the result does not end with whitespace. |
| Text.Strip | ingest.py:84 | `line.strip()` is a slice of the line with only whitespace cut off on either side. A non-empty result neither starts nor ends with whitespace. The result is empty exactly when the line is all whitespace. |
| Text.StripStartEmpty | ingest.py:84-85 | Removing the leading whitespace leaves nothing exactly when the line is all whitespace. |
| Text.StripExact | ingest.py:84 | Stripping removes exactly the surrounding whitespace: whitespace, then a text with non-whitespace ends, then whitespace, strips back to that text. |
| Text.StripStartsAt | ingest.py:84-85 | The stripped line starts with the line's first non-whitespace character. |
| Text.StripStartFrom | ingest.py:84 | Removing the leading whitespace leaves the line from its first non-whitespace character on. |
| Text.StripEndTo | ingest.py:84 | Removing the trailing whitespace leaves the line up to and including its last non-whitespace character. |
| Text.Join | ingest.py:20 | `sep.join(parts)`: the parts with one separator between each two. It carries no contract of its own; `JoinLength`, `JoinSplit` and `SplitJoin` state its properties. |
| Text.JoinLength | ingest.py:20 | A join is as long as its parts together plus one separator between each two parts. |
| Text.Split | ingest.py:20 | Splitting on a character gives at least one piece, and no piece contains that character. This is the partner of the join. |
| Text.JoinSplit | ingest.py:20 | Joining the pieces of a split with the separator gives the text back. |
| Text.SplitJoin | ingest.py:20 | Splitting a join of parts that do not contain the separator gives the parts back. |
| Text.NonEmpty | ingest.py:20 | The filter `(p for p in parts if p)` keeps no empty part. A string is kept exactly when it is a non-empty part. The result is never longer than the input. |
| Text.NonEmptyAppend | ingest.py:20 | The filter keeps the parts' order: the survivors of two runs of parts are the first run's survivors, then the second's. |
| Text.NonEmptyKeepsAll | ingest.py:29 | Parts that are all non-empty pass the filter unchanged. |
| Text.JoinNonEmpty | ingest.py:20 | `"\n".join(p for p in parts if p)` is empty exactly when every part is empty. |
| Text.JoinOfNonEmptyParts | ingest.py:29 | A newline join of non-empty parts is empty only when there are no parts. |
| Text.JoinNonEmptySegments | ingest.py:20 | When no part contains a newline and some part is non-empty, splitting the joined text on newlines gives exactly the non-empty parts. So every segment is non-empty and is one of the parts. |
| Paths.LastDot | ingest.py:68 | The result is the index of the last dot in the name, or -1 when the name has no dot. |
| Paths.Suffix | ingest.py:68-72 | `file_path.suffix` is empty exactly when the name is shorter than two characters, has no dot after its first character, or ends in a dot. Otherwise it is a dot followed by at least one character and no further dot, and it ends the name with something before it. |
| Paths.SuffixIs | ingest.py:68-72 | For ".pdf", ".docx" or ".txt", the pathlib suffix equals the extension exactly when the name ends with it, case included, and has at least one character before it. |
| Extractors.PdfText | ingest.py:16-23 | The PDF text is empty exactly when reading failed or every page's text is empty. |
| Extractors.DocxText | ingest.py:25-32 | The DOCX text is empty exactly when reading failed or every paragraph's text is empty. |
| Extractors.TxtText | ingest.py:34-40 | The text is empty exactly when reading raised or the file is empty. Otherwise it is the file's whole text. |
| Extractors.UrlText | ingest.py:42-57 | An exception escapes exactly when the fetch fails with something other than a request error. A request error gives the empty string. A non-empty result is the page's body text, and a page with non-empty body text returns that text. |
| Extractors.FileContent | ingest.py:67-73 | An entry whose suffix is not one of the three extensions yields the empty string. |
| Extractors.ContentNeedsExtension | ingest.py:67-75 | An entry yields text only when its name ends in ".pdf", ".docx" or ".txt" exactly, with something before the extension. |
| Extractors.DispatchByName | ingest.py:68-73 | A name ending in ".pdf", ".docx" or ".txt", with something before it, reaches the PDF, DOCX or plain-text extractor respectively. |
| Accumulation.Accumulate | ingest.py:62-88 | A run that completes has no more records than items. |
| Accumulation.AccumulateAppend | ingest.py:62-88 | Appending is ordered: the records of a prefix of the items come before those of the rest, and an abort in the prefix ends the whole run. |
| Accumulation.AccumulateDone | ingest.py:83-88 | A run completes exactly when no item aborts. |
| Accumulation.FirstAbort | ingest.py:83-88 | An aborted run stopped at the first item that aborts, with that item's URL. |
| Accumulation.Positions | ingest.py:66-76 | Each record is what its item yields. The items' positions increase with the records. Every item that yields a record has its position listed. |
| Accumulation.AccumulateMembers | ingest.py:75-76 | A record is in the list exactly when some item yields it. |
| Accumulation.AccumulateCount | ingest.py:75-76 | The number of records equals the number of items that yield one. |
| Accumulation.KeptCountBound | ingest.py:83-88 | When every item that yields a record satisfies a condition, the items that yield a record are no more than the items satisfying it, which are no more than all the items. |
| Accumulation.AccumulateEmpty | ingest.py:93 | A completed run has no records exactly when no item yields one. |
| Accumulation.ThenPositions | ingest.py:62-88 | In two runs one after the other, each record comes from an item of one of them. All records of the first run come before all records of the second, each run in its items' order. Every item that yields a record has its origin listed. |
| Ingest.DocStep | ingest.py:66-76 | An entry never aborts the run. It is passed over exactly when its extracted text is empty. Otherwise its record names the entry and holds that text, and the entry's suffix is one of the three extensions. |
| Ingest.UrlTarget | ingest.py:84-85 | The URL a line hands to the extractor, if any: the stripped line when it is non-empty and does not start with '#'. It carries no contract of its own; `UrlTargetByFirstVisible` states it on the raw line. |
| Ingest.UrlTargetByFirstVisible | ingest.py:83-86 | A line is handed to the URL extractor exactly when its first non-whitespace character exists and is not '#'. The extractor then receives the line with its surrounding whitespace removed, which starts with that character. |
| Ingest.UrlStep | ingest.py:83-88 | A blank or comment line is passed over. A line yields a record exactly when it is used and its page has non-empty body text; the record names the stripped line and holds that text. A line aborts the run exactly when its fetch raises past the extractor. |
| Ingest.MainOutcome | ingest.py:61-102 | How `main` ends, as a function of what it finds. It carries no contract of its own; `RunMain` is proved equal to it, and `CrashCases`, `WriteCases`, `Origins`, `RecordsFaithful` and `RecordCount` state its properties. |
| Ingest.RunMain | ingest.py:61-102 | `main`, with its two loops and the final write, ends exactly as `MainOutcome` describes. |
| Ingest.ExtractDocuments | ingest.py:65-76 | The documents loop, with its if/elif dispatch and its append, ends with the records of the accumulation over the entries. |
| Ingest.ExtractUrls | ingest.py:81-88 | The URL loop appends after the document records. It ends with their records followed by those of the accumulation over the lines, or with the abort of the first line that raises. |
| Ingest.DocLoopStep | ingest.py:67-76 | One more entry appends its record, if it has one, at the end of the list. |
| Ingest.UrlLoopStep | ingest.py:84-88 | One more line is passed over, appends its record at the end, or ends the run. |
| Ingest.AbortEndsRun | ingest.py:86 | After a line aborts the run, the remaining lines change nothing. |
| Ingest.CrashCases | ingest.py:54-57 | A run crashes exactly when the fetch for some used line raises past the URL extractor. It then crashes with the URL of the first such line. |
| Ingest.WriteCases | ingest.py:93-102 | Without a crash, a write is attempted exactly when some entry or some line yields a record. The write is reported as failed exactly when the output is not writable. |
| Ingest.Origins | ingest.py:62-88 | Each written record is what its entry or line yields. Document records come first, in directory order, then URL records, in line order. Every entry or line that yields a record has its record written. |
| Ingest.RecordsFaithful | ingest.py:75-88 | A record is written exactly when an entry or a used line yields it. Its content is never empty. A document record names an entry with one of the three suffixes and holds that extractor's text. A URL record names a stripped line and holds the body text fetched from it. |
| Ingest.RecordCount | ingest.py:62-100 | Without a crash, the number of records is the number of entries with non-empty text plus the number of used lines with non-empty page text. That is at most the entries plus the used lines. Nothing is written exactly when the number is zero. |
| Ingest.MissingInputs | ingest.py:65-90 | A missing documents directory or URL file contributes no records and does not stop the other loop from running. |

## Left out

- The text extraction itself is not modelled: pypdf, python-docx, `Path.read_text` with UTF-8 decoding, and BeautifulSoup with its removal of script and style elements. Each is an uninterpreted function in `Library`.
- A page whose `extract_text()` returns `None` is represented by its empty string; both are dropped by the same filter.
- The HTTP request is not modelled: its User-Agent header, the 15-second timeout and `raise_for_status`. Only the three ways it can end are kept: a body text, a `RequestException`, or another exception.
- Directory enumeration and opening the URL file are inputs. The model does not produce lines from the file's bytes, and the trailing newline of each line is removed by the stripping that is modelled. An exception while listing the directory or decoding the URL file is not modelled.
- The JSON serialisation is not modelled: `json.dump` with `indent=2` and `ensure_ascii=False`. The model stops at the list of records that is handed to it.
- Whether the output write succeeds is an input flag (`outputWritable`). Only `IOError` is distinguished, as the code does.
- Encoding errors are not modelled. A directory entry whose name is not valid UTF-8 is handed to Python with surrogate escapes. Its progress message (ingest.py:17, 26, 35) lies outside the `try` and can raise `UnicodeEncodeError` on a strict console. Failing that, `json.dump` raises it while writing the output (ingest.py:99), after the file was truncated. `UnicodeEncodeError` is not an `IOError`, so `main` would crash. A Dafny `string` cannot hold such a name, and the model has no outcome for a crash during the write: `DocStep` never aborts.
- Opening or reading `urls.txt` can raise after `is_file()` succeeded (ingest.py:82), for example for lack of permission or on invalid UTF-8. That would end `main`; the model treats the lines as given.
- Console printing is left out throughout, including the final count message.
- `query_interface.py` is not part of this model. It holds the Neo4j and Gemini calls and the console user interface.
- The pathlib suffix rule modelled is the one in Python releases up to 3.13. There, a name whose only dot is its first or last character has no suffix. Newer releases may treat names that start with dots differently. For a name with a character other than a dot before ".pdf", ".docx" or ".txt", both rules give the same suffix.
- Text.JoinNonEmptySegments: "no empty segments" is proved only for parts without newlines. Page and paragraph texts often contain newlines. For example, `"\n".join(["a\n", "b"])` is `"a\n\nb"`, which splits on newlines into `["a", "", "b"]`, with an empty middle segment.
