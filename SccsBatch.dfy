/** `download_and_hash_pdf` and `process_excel` (INGredients_Analysis/Extractsccspdfs.py):
    every row from the second on whose `H` cell has content and whose `N` cell is empty gets
    the list of results of downloading each PDF link found in `H`, and the workbook is saved
    under a derived name.

    The worksheet is given as its `(H, N)` cells, row 1 (the header) first. A download is an
    opaque outcome per URL, and the path component of a URL (`urlparse(url).path`) is the
    parameter `pathOf`. */
module SccsBatch {
  import opened Common
  import opened Strings
  import PdfUrlScan

  /** `EXCEL_FILE_PATH`, the configured workbook name. */
  const ExcelFilePath: string := "Cosing\U{6570}\U{636E}\U{5E93}XLS2.XLSX"

  const NoLinksMessage := "No valid .pdf links found in source cell."
  const UnexpectedPrefix := "An unexpected error occurred: "
  const UnknownFilename := "unknown.pdf"

  /** One entry of a row's JSON list: `status` is `success` or `error`. The error for a row
      without links carries no `original_url`. */
  datatype Record =
    | Success(originalUrl: string, originalFilename: string, hashFilename: string)
    | Error(errorUrl: Option<string>, message: string)

  /** How a download went: the SHA-256 digest of the body; a `RequestException` (a network
      error or an HTTP error status); or any other exception, writing the file included. */
  datatype Fetch = Fetched(sha256: HexDigest) | RequestFailed(message: string) | Unexpected(message: string)

  /** `os.path.basename` of the URL path, `unknown.pdf` exactly when that is empty: never
      empty, never holding a `/`, and otherwise the path's last segment. */
  function OriginalFilename(path: string): (name: string)
    ensures name != [] && '/' !in name
    ensures LastSegment(path, '/') == [] ==> name == UnknownFilename
    ensures LastSegment(path, '/') != [] ==> name == LastSegment(path, '/')
    ensures name == UnknownFilename || (EndsWith(path, name) && (|name| == |path| || path[|path| - |name| - 1] == '/'))
  {
    var base := LastSegment(path, '/');
    if base == [] then UnknownFilename else base
  }

  /** `download_and_hash_pdf`: the record of one download, naming the file by its digest. */
  function DownloadAndHashPdf(url: string, pathOf: string -> string, fetch: string -> Fetch): Record {
    var originalFilename := OriginalFilename(pathOf(url));
    match fetch(url)
    case Fetched(digest) => Success(url, originalFilename, digest + ".pdf")
    case RequestFailed(e) => Error(Some(url), e)
    case Unexpected(e) => Error(Some(url), UnexpectedPrefix + e)
  }

  /** A download is a success exactly when it went through; either way the record names the
      URL it is about, and a success keeps the URL path's file name. */
  lemma DownloadAndHashPdfSpec(url: string, pathOf: string -> string, fetch: string -> Fetch)
    ensures var r := DownloadAndHashPdf(url, pathOf, fetch);
      (r.Success? <==> fetch(url).Fetched?) &&
      (r.Success? ==> r.originalUrl == url && r.originalFilename == OriginalFilename(pathOf(url))) &&
      (r.Error? ==> r.errorUrl == Some(url))
  {
  }

  /** A request error keeps the exception text; any other error gets it behind a fixed
      prefix. */
  lemma ErrorMessages(url: string, pathOf: string -> string, fetch: string -> Fetch)
    ensures fetch(url).RequestFailed? ==> DownloadAndHashPdf(url, pathOf, fetch).message == fetch(url).message
    ensures fetch(url).Unexpected? ==>
      DownloadAndHashPdf(url, pathOf, fetch).message == UnexpectedPrefix + fetch(url).message
  {
  }

  /** The saved name of a digest ends in `.pdf`, starts with the digest and holds no `/`. */
  lemma DigestName(d: HexDigest)
    ensures EndsWith(d + ".pdf", ".pdf") && (d + ".pdf")[..|d|] == d && '/' !in d + ".pdf"
  {
    assert forall i :: 0 <= i < |d| ==> IsHexDigit(d[i]);
    forall i | 0 <= i < |d + ".pdf"| ensures (d + ".pdf")[i] != '/' {
      if i < |d| { assert (d + ".pdf")[i] == d[i]; }
    }
  }

  /** A saved file is named by the content's digest alone: the name is the digest followed by
      `.pdf`, holds no path separator, and two downloads share a file name exactly when their
      contents have the same digest. */
  lemma HashFilenameNamesContent(u: string, v: string, pathOf: string -> string, fetch: string -> Fetch)
    requires fetch(u).Fetched? && fetch(v).Fetched?
    ensures var a, b := DownloadAndHashPdf(u, pathOf, fetch), DownloadAndHashPdf(v, pathOf, fetch);
      EndsWith(a.hashFilename, ".pdf") && a.hashFilename[..|a.hashFilename| - 4] == fetch(u).sha256 &&
      '/' !in a.hashFilename &&
      (a.hashFilename == b.hashFilename <==> fetch(u).sha256 == fetch(v).sha256)
  {
    var du, dv := fetch(u).sha256, fetch(v).sha256;
    DigestName(du);
    DigestName(dv);
    if du + ".pdf" == dv + ".pdf" {
      assert |du| == |dv|;
      assert du == (du + ".pdf")[..|du|] == (dv + ".pdf")[..|dv|] == dv;
    }
  }

  /** The records of a row's URLs, in URL order. */
  function RowRecords(urls: seq<string>, pathOf: string -> string, fetch: string -> Fetch): seq<Record> {
    if urls == [] then []
    else RowRecords(urls[..|urls| - 1], pathOf, fetch) + [DownloadAndHashPdf(urls[|urls| - 1], pathOf, fetch)]
  }

  /** The record is about `url`, and a success exactly when its download went through. */
  predicate RecordAbout(r: Record, url: string, fetch: string -> Fetch) {
    (r.Success? <==> fetch(url).Fetched?) &&
    (if r.Success? then r.originalUrl == url else r.errorUrl == Some(url))
  }

  /** One record per URL, in order, each about its own URL and a success exactly when its
      download went through. */
  lemma {:induction false} RowRecordsSpec(urls: seq<string>, pathOf: string -> string, fetch: string -> Fetch)
    ensures |RowRecords(urls, pathOf, fetch)| == |urls|
    ensures forall i :: 0 <= i < |urls| ==> RecordAbout(RowRecords(urls, pathOf, fetch)[i], urls[i], fetch)
  {
    if urls != [] {
      var init, last := urls[..|urls| - 1], urls[|urls| - 1];
      RowRecordsSpec(init, pathOf, fetch);
      DownloadAndHashPdfSpec(last, pathOf, fetch);
      var rs := RowRecords(urls, pathOf, fetch);
      forall i | 0 <= i < |urls| ensures RecordAbout(rs[i], urls[i], fetch) {
        if i < |init| {
          assert rs[i] == RowRecords(init, pathOf, fetch)[i] && init[i] == urls[i];
        }
      }
    }
  }

  /** One more URL adds its record at the end. */
  lemma RowRecordsSnoc(urls: seq<string>, i: nat, pathOf: string -> string, fetch: string -> Fetch)
    requires i < |urls|
    ensures RowRecords(urls[..i + 1], pathOf, fetch) ==
      RowRecords(urls[..i], pathOf, fetch) + [DownloadAndHashPdf(urls[i], pathOf, fetch)]
  {
    assert urls[..i + 1][..i] == urls[..i];
  }

  /** The `for i, url in enumerate(urls, 1)` loop: the records of `RowRecords`, in order. */
  method DownloadRow(urls: seq<string>, pathOf: string -> string, fetch: string -> Fetch)
    returns (results: seq<Record>)
    ensures results == RowRecords(urls, pathOf, fetch)
  {
    results := [];
    for i := 0 to |urls|
      invariant results == RowRecords(urls[..i], pathOf, fetch)
    {
      var result := DownloadAndHashPdf(urls[i], pathOf, fetch);
      RowRecordsSnoc(urls, i, pathOf, fetch);
      results := results + [result];
    }
    assert urls[..|urls|] == urls;
  }

  /** The `H` (source) and `N` (target) cells of a worksheet row. */
  datatype SheetRow = SheetRow(source: Cell, target: Cell)

  /** `if source_data and not target_data`. */
  predicate ToProcess(row: SheetRow) {
    Truthy(row.source) && !Truthy(row.target)
  }

  /** A row to process whose source holds at least one link: it is counted as processed. */
  predicate Written(row: SheetRow) {
    ToProcess(row) && PdfUrlScan.FindPdfUrls(row.source) != []
  }

  /** A row to process whose source holds no link: it gets one error record and is counted
      neither as processed nor as skipped. */
  predicate NoLinks(row: SheetRow) {
    ToProcess(row) && PdfUrlScan.FindPdfUrls(row.source) == []
  }

  predicate Skipped(row: SheetRow) {
    !ToProcess(row)
  }

  /** The `N` cell of a visited row after the loop. */
  function RowResult(row: SheetRow, pathOf: string -> string, fetch: string -> Fetch): (n: Slot<seq<Record>>) {
    if !ToProcess(row) then Kept(row.target)
    else
      var urls := PdfUrlScan.FindPdfUrls(row.source);
      if urls == [] then Wrote([Error(None, NoLinksMessage)]) else Wrote(RowRecords(urls, pathOf, fetch))
  }

  /** The number of rows `2 .. hi` (positions `1 .. hi - 1`) that satisfy `p`. */
  function CountRows(sheet: seq<SheetRow>, hi: int, p: SheetRow -> bool): nat
    decreases hi
  {
    if hi <= 1 then 0
    else CountRows(sheet, hi - 1, p) + (if hi - 1 < |sheet| && p(sheet[hi - 1]) then 1 else 0)
  }

  lemma CountRowsStep(sheet: seq<SheetRow>, r: nat, p: SheetRow -> bool)
    requires 1 <= r < |sheet|
    ensures CountRows(sheet, r + 1, p) == CountRows(sheet, r, p) + if p(sheet[r]) then 1 else 0
  {
  }

  /** `file_path.replace('.xlsx', '_processed.xlsx')`, as written. */
  function SavePath(p: string): string {
    ReplaceAll(p, ".xlsx", "_processed.xlsx")
  }

  /** As written, the save name is the input name, and `workbook.save` overwrites the
      workbook that was read, exactly when the name holds no lower-case `.xlsx`. */
  lemma SavePathOverwrites(p: string)
    ensures SavePath(p) == p <==> !Contains(p, ".xlsx")
  {
    ReplaceAllUnchanged(p, ".xlsx", "_processed.xlsx");
  }

  /** The save name as evidently intended: `_processed` goes before an `.xlsx` extension in
      any letter case, or `_processed.xlsx` after any other name. */
  function SavePathFixed(p: string): string {
    if EndsWith(LowerStr(p), ".xlsx") then p[..|p| - 5] + "_processed" + p[|p| - 5..]
    else p + "_processed.xlsx"
  }

  /** The intended save name is never the workbook that was read, and it keeps the name's
      stem and extension. */
  lemma SavePathFixedSpec(p: string)
    ensures SavePathFixed(p) != p
    ensures EndsWith(LowerStr(p), ".xlsx") ==>
      StartsWith(SavePathFixed(p), p[..|p| - 5]) && EndsWith(SavePathFixed(p), "_processed" + p[|p| - 5..])
    ensures !EndsWith(LowerStr(p), ".xlsx") ==> StartsWith(SavePathFixed(p), p) && EndsWith(SavePathFixed(p), "_processed.xlsx")
  {
    var r := SavePathFixed(p);
    if EndsWith(LowerStr(p), ".xlsx") {
      assert r[..|p| - 5] == p[..|p| - 5];
      assert |r| == |p| + 10;
    } else {
      assert r[..|p|] == p;
      assert |r| == |p| + 15;
    }
  }

  /** The configured name ends in `.XLSX`, which the case-sensitive `replace` does not match:
      the save name is the input name, so the original workbook is overwritten. */
  lemma ConfiguredSavePathOverwrites()
    ensures SavePath(ExcelFilePath) == ExcelFilePath
  {
    var stem, ext := "Cosing\U{6570}\U{636E}\U{5E93}XLS2", ".XLSX";
    assert ExcelFilePath == stem + ext;
    ReplaceAllSkips(stem, ext, ".xlsx", "_processed.xlsx");
    assert ext[..5][1] != ".xlsx"[1];
    assert ext[1..] == "XLSX" + [];
    ReplaceAllSkips("XLSX", [], ".xlsx", "_processed.xlsx");
  }

  /** With the intended save name, the configured workbook is kept and the results go to
      `Cosing数据库XLS2_processed.XLSX`. */
  lemma ConfiguredSavePathFixed()
    ensures SavePathFixed(ExcelFilePath) == "Cosing\U{6570}\U{636E}\U{5E93}XLS2_processed.XLSX"
    ensures SavePathFixed(ExcelFilePath) != ExcelFilePath
  {
    var p := ExcelFilePath;
    assert LowerStr(p)[|p| - 5..] == ".xlsx";
    SavePathFixedSpec(p);
  }

  /** The `N` column once rows `2 .. r` have been visited. */
  function TargetAfter(sheet: seq<SheetRow>, r: nat, pathOf: string -> string, fetch: string -> Fetch)
    : (target: seq<Slot<seq<Record>>>)
    ensures |target| == |sheet|
  {
    seq(|sheet|, i requires 0 <= i < |sheet| =>
      if 1 <= i < r then RowResult(sheet[i], pathOf, fetch) else Kept(sheet[i].target))
  }

  lemma TargetAfterStep(sheet: seq<SheetRow>, r: nat, pathOf: string -> string, fetch: string -> Fetch)
    requires 1 <= r < |sheet|
    ensures TargetAfter(sheet, r + 1, pathOf, fetch) ==
      TargetAfter(sheet, r, pathOf, fetch)[r := RowResult(sheet[r], pathOf, fetch)]
  {
  }

  lemma TargetAfterSpec(sheet: seq<SheetRow>, r: nat, pathOf: string -> string, fetch: string -> Fetch)
    requires r >= |sheet|
    ensures |sheet| > 0 ==> TargetAfter(sheet, r, pathOf, fetch)[0] == Kept(sheet[0].target)
    ensures forall i :: 1 <= i < |sheet| ==> TargetAfter(sheet, r, pathOf, fetch)[i] == RowResult(sheet[i], pathOf, fetch)
  {
  }

  /** One pass of the row loop: the row's new `N`, and whether it counts as processed or as
      skipped. */
  method ProcessRow(row: SheetRow, pathOf: string -> string, fetch: string -> Fetch)
    returns (n: Slot<seq<Record>>, written: bool, skipped: bool)
    ensures n == RowResult(row, pathOf, fetch)
    ensures written == Written(row) && skipped == Skipped(row)
  {
    var sourceData, targetData := row.source, row.target;
    n, written, skipped := Kept(targetData), false, false;
    if Truthy(sourceData) && !Truthy(targetData) {
      var urls := PdfUrlScan.FindPdfUrls(sourceData);
      if urls == [] {
        n := Wrote([Error(None, NoLinksMessage)]);
        return;
      }
      var resultsList := DownloadRow(urls, pathOf, fetch);
      n := Wrote(resultsList);
      written := true;
    } else if Truthy(targetData) {
      skipped := true;
    } else {
      skipped := true;
    }
  }

  /** `process_excel` on a loaded sheet: rows `2 ..` are visited once each; a row with
      content in `H` and nothing in `N` gets its records (or the single no-links error), every
      other row keeps its `N`; the header row is never touched. The counters count the rows
      written with links and the rows skipped. The save name is the one the case-sensitive
      `replace` gives, which is the input name itself when that holds no `.xlsx`. */
  method ProcessExcel(filePath: string, sheet: seq<SheetRow>, pathOf: string -> string, fetch: string -> Fetch)
    returns (target: seq<Slot<seq<Record>>>, processedCount: nat, skippedCount: nat, savePath: string)
    ensures |target| == |sheet|
    ensures |sheet| > 0 ==> target[0] == Kept(sheet[0].target)
    ensures forall i :: 1 <= i < |sheet| ==> target[i] == RowResult(sheet[i], pathOf, fetch)
    ensures processedCount == CountRows(sheet, |sheet|, Written)
    ensures skippedCount == CountRows(sheet, |sheet|, Skipped)
    ensures savePath == SavePath(filePath)
    ensures savePath == filePath <==> !Contains(filePath, ".xlsx")
  {
    target := seq(|sheet|, i requires 0 <= i < |sheet| => Kept(sheet[i].target));
    assert target == TargetAfter(sheet, 1, pathOf, fetch);
    processedCount, skippedCount := 0, 0;
    var r := 1;
    while r < |sheet|
      invariant 1 <= r && (r <= |sheet| || r == 1)
      invariant target == TargetAfter(sheet, r, pathOf, fetch)
      invariant processedCount == CountRows(sheet, r, Written)
      invariant skippedCount == CountRows(sheet, r, Skipped)
    {
      var n, written, skipped := ProcessRow(sheet[r], pathOf, fetch);
      TargetAfterStep(sheet, r, pathOf, fetch);
      CountRowsStep(sheet, r, Written);
      CountRowsStep(sheet, r, Skipped);
      target := target[r := n];
      if written {
        processedCount := processedCount + 1;
      }
      if skipped {
        skippedCount := skippedCount + 1;
      }
      r := r + 1;
    }
    TargetAfterSpec(sheet, r, pathOf, fetch);
    savePath := SavePath(filePath);
    SavePathOverwrites(filePath);
  }

  /** Every visited row is written with links, written without, or skipped: the two counters
      and the rows without links add up to the rows after the header. */
  lemma {:induction false} CountsPartition(sheet: seq<SheetRow>, hi: int)
    requires 1 <= hi <= |sheet|
    ensures CountRows(sheet, hi, Written) + CountRows(sheet, hi, NoLinks) + CountRows(sheet, hi, Skipped) == hi - 1
    decreases hi
  {
    if hi > 1 {
      CountsPartition(sheet, hi - 1);
    }
  }

  /** A row's `N` changes exactly when the row was to be processed, and then it holds one
      record per link found, or the single no-links error. */
  lemma RowResultSpec(row: SheetRow, pathOf: string -> string, fetch: string -> Fetch)
    ensures RowResult(row, pathOf, fetch).Wrote? <==> ToProcess(row)
    ensures !ToProcess(row) ==> RowResult(row, pathOf, fetch) == Kept(row.target)
    ensures Written(row) ==> |RowResult(row, pathOf, fetch).result| == |PdfUrlScan.FindPdfUrls(row.source)|
    ensures NoLinks(row) ==> RowResult(row, pathOf, fetch).result == [Error(None, NoLinksMessage)]
  {
    if Written(row) {
      RowRecordsSpec(PdfUrlScan.FindPdfUrls(row.source), pathOf, fetch);
    }
  }

  /** The URL a record is about (`''` for the no-links error). */
  function RecordUrl(r: Record): string {
    if r.Success? then r.originalUrl else r.errorUrl.GetOr("")
  }

  /** A row written with links holds one record per distinct URL of its source cell, in the
      order the URLs were found, each URL one whole match of the PDF link pattern. */
  lemma WrittenRowRecords(row: SheetRow, pathOf: string -> string, fetch: string -> Fetch)
    requires Written(row)
    ensures var rs, urls := RowResult(row, pathOf, fetch).result, PdfUrlScan.FindPdfUrls(row.source);
      |rs| == |urls| &&
      (forall i :: 0 <= i < |rs| ==> RecordUrl(rs[i]) == urls[i] && PdfUrlScan.IsLazyMatch(urls[i], 0, |urls[i]|)) &&
      (forall i, j :: 0 <= i < j < |rs| ==> RecordUrl(rs[i]) != RecordUrl(rs[j]))
  {
    var urls := PdfUrlScan.FindPdfUrls(row.source);
    PdfUrlScan.FindPdfUrlsSpec(row.source);
    var rs := RowResult(row, pathOf, fetch).result;
    assert rs == RowRecords(urls, pathOf, fetch);
    RowRecordsSpec(urls, pathOf, fetch);
    forall i | 0 <= i < |rs| ensures RecordUrl(rs[i]) == urls[i] && PdfUrlScan.IsLazyMatch(urls[i], 0, |urls[i]|) {
      assert urls[i] in urls;
    }
  }

  /** After a run nothing is left to do: every row from the second on either has nothing in
      `H` or has something in `N`, so running the script again on its output changes no row. */
  lemma {:induction false} RunLeavesNothingPending(sheet: seq<SheetRow>, target: seq<Slot<seq<Record>>>,
                                                   pathOf: string -> string, fetch: string -> Fetch)
    requires |target| == |sheet|
    requires forall i :: 1 <= i < |sheet| ==> target[i] == RowResult(sheet[i], pathOf, fetch)
    ensures forall i :: 1 <= i < |sheet| ==> !(Truthy(sheet[i].source) && !SlotTruthy(target[i]))
  {
    forall i | 1 <= i < |sheet| ensures !(Truthy(sheet[i].source) && !SlotTruthy(target[i])) {
      RowResultSpec(sheet[i], pathOf, fetch);
    }
  }
}
