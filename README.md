# A verified model of the OECD SIDS and SCCS PDF harvesting scripts

This project models the core of four Python scripts. They harvest chemical-safety
documents from the OECD HPV/SIDS database and from SCCS opinions.

- **OECDSIDS/step1_htmltoxls.py** turns the saved "all sponsored chemicals" page into a sheet.
  The sheet's header is the first row's cell texts plus two link columns. Each row holds the
  texts of its `<td>` cells, then the links of the CAS-number and chemical-name cells
  (module `HtmlTable`).
- **OECDSIDS/TESTSTEP2.py** visits one chemical's page and collects its PDF links
  (`find_all_pdf_links`, module `PdfLinks`). It reads the chemical and assessment fields from
  labelled spans (module `FieldExtract`). It then downloads every distinct PDF once under a
  file name without path separators (module `OecdJsonTest`).
- **OECDSIDS/step2_extractfromxls.py** does the same per URL, naming each download by the
  MD5 of its content. It runs over the sheet with resume: a row whose column `M` already
  holds a result is not redone (module `OecdBatch`).
- **INGredients_Analysis/Extractsccspdfs.py** finds the PDF URLs in column `H` of an
  ingredient workbook with a lazy regular expression (module `PdfUrlScan`). It downloads
  each one under its SHA-256 and writes the list of outcomes as JSON into column `N`
  (module `SccsBatch`).

Modules `Common`, `Strings` and `Dedup` hold the shared vocabulary:
- optional values and worksheet cells with Python truthiness;
- Python's `strip`, `split`, `replace` and `startswith`/`endswith`;
- "de-duplicate by key, keeping first occurrences", which the scripts write four times as a
  `seen`-set loop.

Pure code is modelled as functions and lemmas. The loops of the source are methods whose
loop invariants prove them equal to a specification function, and lemmas then prove the
source's promises about that function.

The parsed HTML, the browser, the network, hashing and the file system are not modelled.
They appear as inputs instead:
- the parsed page is a datatype of the elements the code looks at;
- a download is a function from URL to outcome;
- `urljoin` is a function parameter;
- the per-URL work of the batch is a function from URL cell to optional result.

## Model

| member | source | states |
|---|---|---|
| Dedup.DedupByKey | OECDSIDS/TESTSTEP2.py:80-88 | the `seen`-set loop returns exactly `DedupBy` of its input |
| Dedup.DedupByKeys | OECDSIDS/TESTSTEP2.py:80-88 | de-duplication keeps every key of the input and adds none |
| Dedup.DedupByDistinct | OECDSIDS/TESTSTEP2.py:80-88 | after de-duplication no two elements share a key |
| Dedup.DedupByFirstOccurrences | OECDSIDS/TESTSTEP2.py:80-88 | each kept element is the first element of the input with its key |
| Strings.StripSpec | OECDSIDS/TESTSTEP2.py:110 | `str.strip()`: empty exactly for all-whitespace text; otherwise no whitespace at either end; a slice of the input outside which every character is whitespace, so only leading and trailing whitespace is removed |
| Strings.LastSegment | OECDSIDS/TESTSTEP2.py:48 | `split('/')[-1]`: no separator, a suffix of the input, preceded by the separator unless it is the whole input |
| Strings.BeforeFirst | OECDSIDS/TESTSTEP2.py:49-50 | `split('?')[0]`: no separator, a prefix of the input, followed by the separator unless it is the whole input |
| Strings.ReplaceCharAt | OECDSIDS/TESTSTEP2.py:402 | replacing one character by one character keeps the length and changes exactly that character's occurrences |
| PdfLinks.AnchorFilename | OECDSIDS/TESTSTEP2.py:45-54 | a text ending in `.pdf` is the name; else a `.pdf` href gives its last segment cut at `?` (no `/`, no `?`); else the text or `document.pdf`, always ending in `.pdf` |
| PdfLinks.EmbedFilenameSpec | OECDSIDS/TESTSTEP2.py:69-71 | the name always ends in `.pdf` and holds no `/`; an empty last segment gives `document.pdf`, a segment already ending in `.pdf` is kept as it is, any other segment gets `.pdf` appended once |
| PdfLinks.AnchorLinksSpec | OECDSIDS/TESTSTEP2.py:36-62 | an anchor yields an entry iff its lower-cased href mentions `.pdf` or `handler.axd`; the entry has the joined URL and the anchor's file name |
| PdfLinks.EmbeddedLinksSpec | OECDSIDS/TESTSTEP2.py:64-78 | an element yields an entry iff its `src` (or, failing that, `data`) is non-empty and mentions `.pdf` or `handler.axd`; the entry is tagged with the element's tag |
| PdfLinks.AppendEmbedded | OECDSIDS/TESTSTEP2.py:65-78 | the loop over one tag's elements appends exactly that tag's entries, in document order |
| PdfLinks.CollectAnchors | OECDSIDS/TESTSTEP2.py:36-61 | the anchor loop appends one entry per anchor whose `href` mentions a PDF, built from that anchor, in document order |
| PdfLinks.CollectEmbedded | OECDSIDS/TESTSTEP2.py:64-78 | the tag loop appends the entries of each tag's elements after what was collected, tag by tag in order |
| PdfLinks.CollectCandidates | OECDSIDS/TESTSTEP2.py:36-78 | the collecting loops produce the anchors' entries, then those of `embed`, `object` and `iframe`, in order |
| PdfLinks.FindAllPdfLinks | OECDSIDS/step2_extractfromxls.py:50-106 | the result is the candidates de-duplicated by URL: URLs pairwise distinct, every entry a candidate, every candidate URL kept |
| PdfLinks.UniqueByUrl | OECDSIDS/TESTSTEP2.py:80-88 | de-duplicating entries by URL gives distinct URLs, only input entries, and every input URL |
| PdfLinks.CollectUnique | OECDSIDS/TESTSTEP2.py:356-363 | the pages' links are concatenated in visit order and de-duplicated by URL: distinct URLs, each from some page, and exactly the set of URLs found |
| PdfLinks.FlattenMembers | OECDSIDS/TESTSTEP2.py:279 | a link is in the concatenation iff it was found on some page |
| FieldExtract.SpanValueSpec | OECDSIDS/TESTSTEP2.py:109-110 | `None` iff the span is missing or blank; otherwise the stripped span text, never empty |
| FieldExtract.FieldsRecordSpec | OECDSIDS/TESTSTEP2.py:108-110 | with distinct field names, the record has exactly the table's fields, each holding its own span's value |
| FieldExtract.ExtractFields | OECDSIDS/TESTSTEP2.py:108-110 | the field loop builds exactly the record of the field table |
| FieldExtract.ExtractSpanFields | OECDSIDS/step2_extractfromxls.py:124-126 | the field loop's record has the table's field names as keys and each field's span value |
| FieldExtract.ChemicalFieldsDistinct | OECDSIDS/TESTSTEP2.py:98-106 | the chemical table maps to seven distinct fields |
| FieldExtract.AssessmentFieldsDistinct | OECDSIDS/TESTSTEP2.py:122-129 | the assessment table maps to six distinct fields |
| FieldExtract.ExtractChemicalData | OECDSIDS/TESTSTEP2.py:91-112 | the record has exactly the seven chemical fields, each the stripped span text or `None` |
| FieldExtract.AssessmentSpanKeys | OECDSIDS/TESTSTEP2.py:122-133 | the assessment field loop sets exactly the six mapped fields |
| FieldExtract.AssessmentSpansSpec | OECDSIDS/TESTSTEP2.py:131-133 | each assessment span field is the stripped span text, or `None` when the span is missing or blank |
| FieldExtract.AssessmentExtrasSpec | OECDSIDS/TESTSTEP2.py:135-149 | `category` and `category_link` are set iff the anchor exists, the link `''` without an `href`; `icca_note` is `None` iff the label is missing, `''` for a blank label, and otherwise agrees with the span rule |
| FieldExtract.ExtractAssessmentData | OECDSIDS/TESTSTEP2.py:115-151 | exactly nine fields: the six span fields as the field loop sets them, then `category`, `category_link` and `icca_note` as described above |
| FieldExtract.AddAssessmentExtras | OECDSIDS/TESTSTEP2.py:135-149 | adding `category`, `category_link` and `icca_note` to the six span fields gives exactly nine fields and leaves the span fields unchanged |
| OecdJsonTest.SafeFilename | OECDSIDS/TESTSTEP2.py:402 | the safe name has no `/` or `\`, the same length, and differs only where a separator became `_` |
| OecdJsonTest.DownloadAll | OECDSIDS/TESTSTEP2.py:396-430 | one entry per link, numbered from 1 in link order, with the link's URL, a separator-free name, and success iff the download succeeded |
| OecdJsonTest.FileInfoShape | OECDSIDS/TESTSTEP2.py:406-425 | an entry records a size iff the download succeeded and an error iff it failed, and keeps the link's URL and original name |
| OecdJsonTest.HarvestAndDownload | OECDSIDS/TESTSTEP2.py:356-430 | entry `i` is built from the `i`-th de-duplicated link (first occurrence of each URL, in order) and its download; so entries are numbered 1..n, their URLs are pairwise distinct and exactly the URLs found on the pages, and no name holds a separator |
| OecdBatch.StripPdfSuffix | OECDSIDS/step2_extractfromxls.py:344 | removing `.pdf` from `<md5>.pdf` gives back the MD5 exactly |
| OecdBatch.InfoForShape | OECDSIDS/step2_extractfromxls.py:336-351 | success iff downloaded; a success saves `<md5>.pdf` and records the MD5 and size; a failure records neither name and keeps the error |
| OecdBatch.DownloadAllMd5 | OECDSIDS/step2_extractfromxls.py:331-353 | one entry per link, numbered from 1, each built from that link's download outcome |
| OecdBatch.ProcessSingleUrlPdfs | OECDSIDS/step2_extractfromxls.py:321-353 | entry `i` is `InfoFor` the `i`-th de-duplicated link (first occurrence of each URL, in order) and its download; so entries are numbered 1..n with distinct URLs, exactly the URLs found; each success names the file `<filemd5>.pdf` |
| OecdBatch.NotNullCount | OECDSIDS/step2_extractfromxls.py:401 | the count of filled result cells is at most the number of rows |
| OecdBatch.RunBatch | OECDSIDS/step2_extractfromxls.py:396-491 | it runs iff some row is still empty; otherwise nothing changes; it writes the result of every successful row from `start` on into `M` and counts successes and failures |
| OecdBatch.CountsAddUp | OECDSIDS/step2_extractfromxls.py:440-493 | successes plus failures equal the rows handed to the per-URL processing |
| OecdBatch.DoneRowsKept | OECDSIDS/step2_extractfromxls.py:448-449 | a row whose `M` was filled keeps it; a row changes only by receiving its own successful result |
| OecdBatch.FirstDataRowNeverProcessed | OECDSIDS/step2_extractfromxls.py:444 | as written, the first row under the header keeps an empty `M`, so the sheet never becomes complete |
| OecdBatch.FromFirstDataRowCompletes | OECDSIDS/step2_extractfromxls.py:444 | starting at position 0, a run in which every pending row has a URL and succeeds leaves no row empty |
| PdfUrlScan.LazyEndSpec | INGredients_Analysis/Extractsccspdfs.py:33 | the lazy search for `.pdf` stops at exactly the end of the declarative lazy body, and only there |
| PdfUrlScan.SchemesExclusive | INGredients_Analysis/Extractsccspdfs.py:33 | `https://` and `http://` (in any case) cannot both start at one position |
| PdfUrlScan.MatchAtSpec | INGredients_Analysis/Extractsccspdfs.py:33 | the pattern tried at a position ends at `e` iff `https?://`, a body of allowed characters without an earlier `.pdf`, then `.pdf` spans up to `e` |
| PdfUrlScan.NoMatchInSpec | INGredients_Analysis/Extractsccspdfs.py:34 | a stretch where the scan finds nothing holds no match of the pattern |
| PdfUrlScan.Scan | INGredients_Analysis/Extractsccspdfs.py:34 | `findall`'s spans lie inside the text, are non-empty and do not overlap, left to right |
| PdfUrlScan.ScanMatches | INGredients_Analysis/Extractsccspdfs.py:33-34 | every span the scan reports is a match of the pattern |
| PdfUrlScan.ScanGaps | INGredients_Analysis/Extractsccspdfs.py:33-34 | the scan is leftmost: no match starts before, between or after the reported spans |
| PdfUrlScan.MatchStandsAlone | INGredients_Analysis/Extractsccspdfs.py:33-34 | a matched text, cut out of its context, is a whole match of itself |
| PdfUrlScan.FoundUrlsAreMatches | INGredients_Analysis/Extractsccspdfs.py:33-34 | every text `findall` returns is a whole match of the pattern |
| PdfUrlScan.DedupMembers | INGredients_Analysis/Extractsccspdfs.py:37 | `dict.fromkeys` keeps exactly the strings of its input |
| PdfUrlScan.FindPdfUrlsSpec | INGredients_Analysis/Extractsccspdfs.py:23-38 | `[]` for a non-string; otherwise distinct URLs, each a whole match (scheme, body, `.pdf`), and exactly the matched texts |
| SccsBatch.OriginalFilename | INGredients_Analysis/Extractsccspdfs.py:47-49 | never empty, no `/`; `unknown.pdf` exactly when the path's last segment is empty, otherwise that segment |
| SccsBatch.DownloadAndHashPdfSpec | INGredients_Analysis/Extractsccspdfs.py:40-93 | success iff the download went through, with the URL and original name; an error otherwise, naming the URL |
| SccsBatch.ErrorMessages | INGredients_Analysis/Extractsccspdfs.py:78-93 | a request error keeps the exception text; any other error gets the fixed prefix |
| SccsBatch.HashFilenameNamesContent | INGredients_Analysis/Extractsccspdfs.py:60-63 | the saved name is the digest plus `.pdf`, has no `/`, and two downloads share a name iff their digests are equal |
| SccsBatch.RowRecordsSpec | INGredients_Analysis/Extractsccspdfs.py:149-157 | one record per URL, in URL order, each about its own URL, a success iff its download went through |
| SccsBatch.DownloadRow | INGredients_Analysis/Extractsccspdfs.py:149-157 | the download loop builds exactly the records of `RowRecords` |
| SccsBatch.ProcessRow | INGredients_Analysis/Extractsccspdfs.py:131-173 | one pass of the row loop gives the row's new `N` and whether it counts as processed or skipped |
| SccsBatch.ProcessExcel | INGredients_Analysis/Extractsccspdfs.py:118-181 | the header row is untouched; every later row gets its result; the counters equal the rows written with links and the rows skipped; the save name is the case-sensitive `replace` of line 181, equal to the input name exactly when that holds no `.xlsx` |
| SccsBatch.CountsPartition | INGredients_Analysis/Extractsccspdfs.py:135-173 | processed, skipped and no-link rows add up to the rows after the header |
| SccsBatch.RowResultSpec | INGredients_Analysis/Extractsccspdfs.py:135-165 | `N` changes iff `H` is truthy and `N` is not; a row with links gets one record per URL, one without gets the single no-links error |
| SccsBatch.WrittenRowRecords | INGredients_Analysis/Extractsccspdfs.py:139-163 | a row written with links holds one record per distinct URL found, in order, each URL a whole match of the pattern |
| SccsBatch.RunLeavesNothingPending | INGredients_Analysis/Extractsccspdfs.py:135 | after a run no row with content in `H` still has an empty `N`, so a second run changes nothing |
| SccsBatch.SavePathOverwrites | INGredients_Analysis/Extractsccspdfs.py:181 | as written, the save name is the input name, so the workbook is overwritten, exactly when the name holds no lower-case `.xlsx` |
| Strings.ReplaceAllUnchanged | INGredients_Analysis/Extractsccspdfs.py:181 | `replace(pat, rep)` with a longer `rep` leaves the text as it is exactly when `pat` does not occur in it |
| SccsBatch.ConfiguredSavePathOverwrites | INGredients_Analysis/Extractsccspdfs.py:181 | as written, the configured `.XLSX` name is its own save name |
| SccsBatch.SavePathFixedSpec | INGredients_Analysis/Extractsccspdfs.py:181 | the intended save name always differs from the input and keeps its stem and extension |
| SccsBatch.ConfiguredSavePathFixed | INGredients_Analysis/Extractsccspdfs.py:13 | an illustration of the corrected half: the intended save name of the configured workbook is `Cosing数据库XLS2_processed.XLSX` |
| HtmlTable.Tds | OECDSIDS/step1_htmltoxls.py:56 | `find_all('td')` keeps exactly the row's `<td>` cells |
| HtmlTable.TdsAppend | OECDSIDS/step1_htmltoxls.py:56 | `find_all('td')` keeps order and multiplicity: it distributes over concatenation of a row's stretches |
| HtmlTable.FullUrl | OECDSIDS/step1_htmltoxls.py:74-79 | an `http` href is kept, a `javascript` href gives `''`, anything else is joined to the base URL; the two prefixes exclude each other |
| HtmlTable.RowDataShape | OECDSIDS/step1_htmltoxls.py:60-89 | an emitted row has one entry per `<td>` plus two: the texts in order, then the links of cells 0 and 1 |
| HtmlTable.OtherLinksIgnored | OECDSIDS/step1_htmltoxls.py:82-85 | links in cells other than 0 and 1 do not affect the row |
| HtmlTable.Emitted | OECDSIDS/step1_htmltoxls.py:56-58 | the emitted rows are rows of the table with `<td>` cells, and every such row is emitted |
| HtmlTable.EmittedAppend | OECDSIDS/step1_htmltoxls.py:54-58 | the emitted rows keep their order and multiplicity: emitting distributes over concatenation of stretches of the table |
| HtmlTable.DataRowsSpec | OECDSIDS/step1_htmltoxls.py:55-91 | the data has one row per row with `<td>` cells, in order, each built from that row |
| HtmlTable.TableExtractionShape | OECDSIDS/step1_htmltoxls.py:39-91 | the header is the first row's cells plus the two link columns; a data row is as wide as the header iff its row has as many `<td>` as the first row has cells |
| HtmlTable.ExtractRow | OECDSIDS/step1_htmltoxls.py:60-89 | the cell loop builds exactly the row's texts and its two links |
| HtmlTable.ExtractTableData | OECDSIDS/step1_htmltoxls.py:11-111 | `None` iff there is no table; only the first table is read; the header and row loops build the frame |

## Left out

- The browser (Selenium navigation, iframe switching, waits), `requests` and `time.sleep`: they are I/O. Downloads are opaque outcomes per URL.
- HTML parsing: BeautifulSoup is replaced by the elements the code reads. `get_text(strip=True)` is taken as given text.
- `urljoin` and `urlparse(url).path` are function parameters and are not modelled.
- MD5 and SHA-256 are foreign computations. Digests are opaque lower-case hexadecimal strings.
- Files are not modelled: writing the downloads, temp-file renames, `local_path`/`os.path.abspath`, saving the HTML and JSON files, listing the output folder, and saving the workbooks.
- JSON encoding of the records written into columns `M` and `N`: the model keeps the records themselves. A field record is a `map`, which does not keep the insertion order of the Python dict, so the key order of the JSON written to column `M` and to the output file is not modelled.
- Printing, progress messages, and the KB/MB figures (`round(size / 1024, 2)`), which are floating point.
- The control flow of `test_oecd_with_json` and `process_single_url` around the pages is not modelled: which iframes are visited, the second pass that visits every iframe's URL directly (all but `about:blank`), whose links join the page list after those of the iframe visits, and the exception handlers that skip a page. The model starts from the link lists of the pages that were visited.
- The merging of chemical and assessment fields across pages with `dict.update` is not modelled; each extractor is modelled on one page.
- OECDSIDS/diagnose.py is not part of this model: it only probes the environment.
- `process_excel`'s failures to open or save the workbook are not modelled. Each only prints and returns.
- HtmlTable.ExtractTableData: a table without rows is the outcome `EmptyTable`, where the source raises `IndexError`. Width mismatches are not modelled as an error either. `pd.DataFrame(data, columns=headers)` makes the frame as wide as its widest data row and pads shorter rows with empty cells at the end; it raises only when that widest row is not as wide as the header. A row narrower than a full-width row therefore does not raise, and its two link values, appended last, end up under the wrong headers. `TableExtractionShape` states when a data row is as wide as the header.
- PdfUrlScan.CiAt: `re.IGNORECASE` is modelled as ASCII case folding. Python also lets `ſ` (U+017F) match `s`, which the model does not capture.
- SccsBatch.OriginalFilename: `os.path.basename` is modelled as splitting at `/` only. On Windows it also splits at `\`.
- OecdBatch.RunBatch: the workbook is not written out after each success, and `len(df)`, `iloc` and `row.get('M')` are modelled on a frame of cells.
- Cells holding floating-point numbers are modelled as integers. Only their truthiness matters here.

## Findings

| source | as written | input that shows it | evidently intended | confidence | as-written member | corrected member |
|---|---|---|---|---|---|---|
| OECDSIDS/step2_extractfromxls.py:444 | the row loop is `range(1, len(df))`, but `pd.read_excel` already turned the header into column names, so position 0 is the first chemical | a sheet whose first chemical row has an empty `M` and a URL: it is never processed, and `remaining_rows` never reaches 0, however often the script is resumed | start at position 0: only the header was meant to be skipped, and pandas has already consumed it | high; not executed | OecdBatch.FirstDataRowNeverProcessed | OecdBatch.FromFirstDataRowCompletes |
| INGredients_Analysis/Extractsccspdfs.py:181 | `file_path.replace('.xlsx', '_processed.xlsx')` is case-sensitive | the configured name `Cosing数据库XLS2.XLSX` (line 13) has no `.xlsx`, so the save name equals the input and the original workbook is overwritten | always save to a new `_processed` file, as the comment on line 180 says | high; not executed | SccsBatch.ConfiguredSavePathOverwrites | SccsBatch.SavePathFixedSpec |
