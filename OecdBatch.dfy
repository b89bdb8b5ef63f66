/** OECDSIDS/step2_extractfromxls.py: the `pdf_info` entries that `process_single_url`
    builds for the de-duplicated links of one chemical, and the resumable row loop of
    `process_excel_batch`, which writes each URL's result into column `M` of the sheet.

    Downloads and the whole per-URL processing (browser, parsing, hashing) are opaque
    functions of their input. */
module OecdBatch {
  import opened Common
  import opened Strings
  import opened PdfLinks
  import FieldExtract
  import Dedup

  // ---------------------------------------------------------------------------------------
  // The `pdf_files` of one URL

  /** What `download_pdf_with_md5` reports: the MD5 of the saved file and its size, or the
      text of the exception. */
  datatype Md5Download = Downloaded(md5: HexDigest, size: nat) | DownloadFailed(message: string)

  /** One `pdf_info` entry. */
  datatype PdfInfo = PdfInfo(
    index: nat,
    originalFilename: string,
    url: string,
    downloadSuccess: bool,
    filemd5: Option<string>,
    savedFilename: Option<string>,
    fileSizeBytes: Option<nat>,
    error: Option<string>)

  /** The entry for the `index`-th unique link: on success the name the file was saved
      under (`<md5>.pdf`) and that name with `.pdf` removed; on failure the error. */
  function InfoFor(index: nat, link: PdfLink, outcome: Md5Download): PdfInfo {
    match outcome
    case Downloaded(md5, size) =>
      var md5Name := md5 + ".pdf";
      PdfInfo(index, link.filename, link.url, true, Some(ReplaceAll(md5Name, ".pdf", "")), Some(md5Name), Some(size), None)
    case DownloadFailed(message) =>
      PdfInfo(index, link.filename, link.url, false, None, None, None, Some(message))
  }

  /** Removing `.pdf` from `<md5>.pdf` gives back the MD5 exactly: a hexadecimal digest
      holds no `.`, so the only occurrence is the suffix. */
  lemma {:induction false} StripPdfSuffix(md5: HexDigest)
    ensures ReplaceAll(md5 + ".pdf", ".pdf", "") == md5
  {
    ReplaceAllSkips(md5, ".pdf", ".pdf", "");
    assert ReplaceAll([], ".pdf", "") == [];
    assert ".pdf"[|".pdf"|..] == [];
  }

  /** Success and failure entries have the shape the batch relies on: the saved name is the
      MD5 followed by `.pdf` and `filemd5` is the MD5 itself; a failed entry has neither
      and carries the error. */
  lemma InfoForShape(index: nat, link: PdfLink, outcome: Md5Download)
    ensures var info := InfoFor(index, link, outcome);
      info.index == index && info.url == link.url && info.originalFilename == link.filename &&
      (info.downloadSuccess <==> outcome.Downloaded?) &&
      (outcome.Downloaded? ==>
        info.savedFilename == Some(outcome.md5 + ".pdf") && info.filemd5 == Some(outcome.md5) &&
        info.fileSizeBytes == Some(outcome.size) && info.error == None) &&
      (outcome.DownloadFailed? ==>
        info.savedFilename == None && info.filemd5 == None && info.error == Some(outcome.message))
  {
    if outcome.Downloaded? {
      StripPdfSuffix(outcome.md5);
    }
  }

  /** The download loop of `process_single_url`: one entry per link, numbered from 1. */
  method DownloadAllMd5(links: seq<PdfLink>, download: string -> Md5Download) returns (files: seq<PdfInfo>)
    ensures |files| == |links|
    ensures forall i :: 0 <= i < |links| ==> files[i] == InfoFor(i + 1, links[i], download(links[i].url))
  {
    files := [];
    for i := 0 to |links|
      invariant |files| == i
      invariant forall k :: 0 <= k < i ==> files[k] == InfoFor(k + 1, links[k], download(links[k].url))
    {
      var pdf := links[i];
      var outcome := download(pdf.url);
      var info := PdfInfo(i + 1, pdf.filename, pdf.url, outcome.Downloaded?, None, None, None, None);
      if outcome.Downloaded? {
        var md5Name := outcome.md5 + ".pdf";
        info := info.(filemd5 := Some(ReplaceAll(md5Name, ".pdf", "")), savedFilename := Some(md5Name),
          fileSizeBytes := Some(outcome.size));
      } else {
        info := info.(error := Some(outcome.message), filemd5 := None, savedFilename := None);
      }
      files := files + [info];
    }
  }

  /** `process_single_url` from the links found on each visited page: entry `i` is built
      from the `i`-th link left by the global de-duplication, so the entries are numbered
      1..n in that order, their URLs are pairwise distinct and are exactly the URLs found,
      and every successful entry names the file `<md5>.pdf` and records that MD5. */
  method ProcessSingleUrlPdfs(pages: seq<seq<PdfLink>>, download: string -> Md5Download)
    returns (files: seq<PdfInfo>)
    ensures |files| == |Dedup.DedupBy(Flatten(pages), UrlOf)|
    ensures var unique := Dedup.DedupBy(Flatten(pages), UrlOf);
      forall i :: 0 <= i < |files| ==> files[i] == InfoFor(i + 1, unique[i], download(unique[i].url))
    ensures forall i :: 0 <= i < |files| ==> files[i].index == i + 1
    ensures forall i, j :: 0 <= i < j < |files| ==> files[i].url != files[j].url
    ensures (set i | 0 <= i < |files| :: files[i].url) == Dedup.KeySet(Flatten(pages), UrlOf)
    ensures forall i :: 0 <= i < |files| ==>
      (files[i].downloadSuccess <==> download(files[i].url).Downloaded?)
    ensures forall i :: 0 <= i < |files| && files[i].downloadSuccess ==>
      files[i].filemd5.Some? && files[i].savedFilename == Some(files[i].filemd5.value + ".pdf")
  {
    var unique := CollectUnique(pages);
    files := DownloadAllMd5(unique, download);
    forall i | 0 <= i < |files|
      ensures files[i].index == i + 1 && files[i].url == unique[i].url
      ensures files[i].downloadSuccess <==> download(files[i].url).Downloaded?
      ensures files[i].downloadSuccess ==>
        files[i].filemd5.Some? && files[i].savedFilename == Some(files[i].filemd5.value + ".pdf")
    {
      InfoForShape(i + 1, unique[i], download(unique[i].url));
    }
    assert (set i | 0 <= i < |files| :: files[i].url) == Dedup.KeySet(unique, UrlOf);
  }

  // ---------------------------------------------------------------------------------------
  // The resumable batch over the sheet

  /** What `process_single_url` returns when it does not fail; it is written to column `M`
      as JSON. */
  datatype UrlResult = UrlResult(
    sourceUrl: Cell,
    chemicalInfo: FieldExtract.Record,
    assessmentInfo: FieldExtract.Record,
    pdfFiles: seq<PdfInfo>)

  /** The sheet as `pd.read_excel` returns it: the header row became the column names, so
      `rows[0]` is the first row under the header. */
  datatype Frame = Frame(columns: seq<string>, rows: seq<seq<Cell>>)

  const ResultColumn := "M"

  /** Column 10 (the sheet's column K) holds the URL. */
  const UrlColumn := 10

  function CellAt(row: seq<Cell>, j: nat): Cell {
    if j < |row| then row[j] else Null
  }

  function IndexOf(xs: seq<string>, x: string): (i: nat)
    requires x in xs
    ensures i < |xs| && xs[i] == x
    ensures forall j :: 0 <= j < i ==> xs[j] != x
  {
    if xs[0] == x then 0 else 1 + IndexOf(xs[1..], x)
  }

  /** The `M` cell of a row as read: the sheet's own `M` column, or empty when the sheet
      has none (`df['M'] = None`). */
  function MCell(f: Frame, i: nat): Cell
    requires i < |f.rows|
  {
    if ResultColumn in f.columns then CellAt(f.rows[i], IndexOf(f.columns, ResultColumn)) else Null
  }

  /** `row.iloc[10] if len(row) > 10 else None`. When the sheet has exactly ten columns,
      position 10 is the `M` column the script added, which is empty. */
  function UrlCell(f: Frame, i: nat): Cell
    requires i < |f.rows|
  {
    if UrlColumn < |f.columns| then CellAt(f.rows[i], UrlColumn) else Null
  }

  /** The `M` column before the loop. */
  function InitialM(f: Frame): (m: seq<Slot<UrlResult>>)
    ensures |m| == |f.rows|
  {
    seq(|f.rows|, i requires 0 <= i < |f.rows| => Kept(MCell(f, i)))
  }

  /** `notna().sum()` over a result column. */
  function NotNullCount(m: seq<Slot<UrlResult>>): (n: nat)
    ensures n <= |m|
  {
    if m == [] then 0 else NotNullCount(m[..|m| - 1]) + (if SlotNotNull(m[|m| - 1]) then 1 else 0)
  }

  /** `remaining_rows`: the rows whose `M` is still empty. */
  function Remaining(f: Frame): nat {
    |f.rows| - NotNullCount(InitialM(f))
  }

  /** A visited row reaches `process_single_url` iff its `M` is empty and its URL truthy. */
  predicate Called(f: Frame, i: nat)
    requires i < |f.rows|
  {
    MCell(f, i).Null? && Truthy(UrlCell(f, i))
  }

  predicate Succeeded(f: Frame, i: nat, process: Cell -> Option<UrlResult>)
    requires i < |f.rows|
  {
    Called(f, i) && process(UrlCell(f, i)).Some?
  }

  predicate Errored(f: Frame, i: nat, process: Cell -> Option<UrlResult>)
    requires i < |f.rows|
  {
    Called(f, i) && process(UrlCell(f, i)).None?
  }

  /** The `M` column once rows `start .. upto - 1` have been visited: a visited row whose
      processing succeeded holds its result, every other row what it had. */
  function MAfter(f: Frame, start: nat, upto: int, process: Cell -> Option<UrlResult>): (m: seq<Slot<UrlResult>>)
    ensures |m| == |f.rows|
  {
    seq(|f.rows|, i requires 0 <= i < |f.rows| =>
      if start <= i < upto && Succeeded(f, i, process) then Wrote(process(UrlCell(f, i)).value)
      else Kept(MCell(f, i)))
  }

  /** The number of rows `start .. hi - 1` that satisfy `p`. */
  function CountRows(f: Frame, start: nat, hi: int, p: nat -> bool): nat
    decreases hi - start
  {
    if hi <= start then 0
    else CountRows(f, start, hi - 1, p) + (if hi - 1 < |f.rows| && p(hi - 1) then 1 else 0)
  }

  function CalledCount(f: Frame, start: nat, hi: int): nat {
    CountRows(f, start, hi, (i: nat) => i < |f.rows| && Called(f, i))
  }

  function SuccessCount(f: Frame, start: nat, hi: int, process: Cell -> Option<UrlResult>): nat {
    CountRows(f, start, hi, (i: nat) => i < |f.rows| && Succeeded(f, i, process))
  }

  function ErrorCount(f: Frame, start: nat, hi: int, process: Cell -> Option<UrlResult>): nat {
    CountRows(f, start, hi, (i: nat) => i < |f.rows| && Errored(f, i, process))
  }

  /** The source starts the row loop at position 1; see `FirstDataRowNeverProcessed`. */
  const SourceStartRow := 1

  /** `process_excel_batch` from a given first row: it counts the rows still to do and
      stops at once when there are none; otherwise it visits rows `start ..`, skips those
      whose `M` is filled or whose URL is empty, writes each successful result into `M`,
      and counts successes and failures. */
  method RunBatch(f: Frame, start: nat, process: Cell -> Option<UrlResult>)
    returns (m: seq<Slot<UrlResult>>, ran: bool, successCount: nat, errorCount: nat)
    ensures ran <==> Remaining(f) != 0
    ensures !ran ==> m == InitialM(f) && successCount == 0 && errorCount == 0
    ensures ran ==> m == MAfter(f, start, |f.rows|, process)
    ensures ran ==> successCount == SuccessCount(f, start, |f.rows|, process)
    ensures ran ==> errorCount == ErrorCount(f, start, |f.rows|, process)
  {
    m := InitialM(f);
    var remainingRows := |f.rows| - NotNullCount(m);
    if remainingRows == 0 {
      return m, false, 0, 0;
    }
    ran := true;
    successCount, errorCount := 0, 0;
    var idx := start;
    while idx < |f.rows|
      invariant start <= idx
      invariant m == MAfter(f, start, idx, process)
      invariant successCount == SuccessCount(f, start, idx, process)
      invariant errorCount == ErrorCount(f, start, idx, process)
    {
      RunBatchStep(f, start, idx, process);
      if SlotNotNull(m[idx]) {
        idx := idx + 1;
        continue;
      }
      var url := if UrlColumn < |f.columns| then CellAt(f.rows[idx], UrlColumn) else Null;
      if !Truthy(url) {
        idx := idx + 1;
        continue;
      }
      var result := process(url);
      if result.Some? {
        m := m[idx := Wrote(result.value)];
        successCount := successCount + 1;
      } else {
        errorCount := errorCount + 1;
      }
      idx := idx + 1;
    }
    assert MAfter(f, start, idx, process) == MAfter(f, start, |f.rows|, process);
    CountRowsBeyond(f, start, idx, (i: nat) => i < |f.rows| && Succeeded(f, i, process));
    CountRowsBeyond(f, start, idx, (i: nat) => i < |f.rows| && Errored(f, i, process));
  }

  /** One pass of the row loop: row `idx` still holds what it was read with, and visiting
      it writes its result only when processing succeeds, and adds to exactly one count when
      it is processed. */
  lemma RunBatchStep(f: Frame, start: nat, idx: nat, process: Cell -> Option<UrlResult>)
    requires start <= idx < |f.rows|
    ensures MAfter(f, start, idx, process)[idx] == Kept(MCell(f, idx))
    ensures MAfter(f, start, idx + 1, process) ==
      if Succeeded(f, idx, process) then MAfter(f, start, idx, process)[idx := Wrote(process(UrlCell(f, idx)).value)]
      else MAfter(f, start, idx, process)
    ensures SuccessCount(f, start, idx + 1, process) ==
      SuccessCount(f, start, idx, process) + if Succeeded(f, idx, process) then 1 else 0
    ensures ErrorCount(f, start, idx + 1, process) ==
      ErrorCount(f, start, idx, process) + if Errored(f, idx, process) then 1 else 0
  {
  }

  /** Rows past the end of the sheet add nothing to a count. */
  lemma {:induction false} CountRowsBeyond(f: Frame, start: nat, hi: int, p: nat -> bool)
    requires hi >= |f.rows|
    ensures CountRows(f, start, hi, p) == CountRows(f, start, |f.rows|, p)
    decreases hi
  {
    if hi > |f.rows| && hi > start {
      CountRowsBeyond(f, start, hi - 1, p);
    } else if hi > |f.rows| {
      assert |f.rows| < start;
    }
  }

  /** `success_count + error_count` is the number of rows handed to `process_single_url`. */
  lemma {:induction false} CountsAddUp(f: Frame, start: nat, hi: int, process: Cell -> Option<UrlResult>)
    ensures SuccessCount(f, start, hi, process) + ErrorCount(f, start, hi, process) == CalledCount(f, start, hi)
    decreases hi - start
  {
    if hi > start {
      CountsAddUp(f, start, hi - 1, process);
    }
  }

  /** Resuming never touches a finished row: a row whose `M` was filled keeps it, and a
      row changes only by receiving the result of its own successful processing. */
  lemma DoneRowsKept(f: Frame, start: nat, process: Cell -> Option<UrlResult>)
    ensures forall i :: 0 <= i < |f.rows| && SlotNotNull(InitialM(f)[i]) ==>
      MAfter(f, start, |f.rows|, process)[i] == InitialM(f)[i]
    ensures forall i :: 0 <= i < |f.rows| && MAfter(f, start, |f.rows|, process)[i] != InitialM(f)[i] ==>
      start <= i && Succeeded(f, i, process) &&
      MAfter(f, start, |f.rows|, process)[i] == Wrote(process(UrlCell(f, i)).value)
  {
    forall i | 0 <= i < |f.rows| && SlotNotNull(InitialM(f)[i])
      ensures MAfter(f, start, |f.rows|, process)[i] == InitialM(f)[i]
    {
      assert InitialM(f)[i] == Kept(MCell(f, i));
      assert !Succeeded(f, i, process);
      assert MAfter(f, start, |f.rows|, process)[i] == Kept(MCell(f, i));
    }
  }

  /** A column with an empty cell is not fully done. */
  lemma {:induction false} NotNullCountBelow(m: seq<Slot<UrlResult>>, i: nat)
    requires i < |m| && !SlotNotNull(m[i])
    ensures NotNullCount(m) < |m|
  {
    if i < |m| - 1 {
      NotNullCountBelow(m[..|m| - 1], i);
    }
  }

  /** A column without empty cells is fully done. */
  lemma {:induction false} NotNullCountFull(m: seq<Slot<UrlResult>>)
    requires forall i :: 0 <= i < |m| ==> SlotNotNull(m[i])
    ensures NotNullCount(m) == |m|
  {
    if m != [] {
      NotNullCountFull(m[..|m| - 1]);
    }
  }

  /** As written, the loop starts at position 1, but `rows[0]` is already the first row
      under the header: that row is never processed, so with an empty `M` it stays empty
      and the sheet never reaches "all rows processed", whatever the processing returns. */
  lemma FirstDataRowNeverProcessed(f: Frame, process: Cell -> Option<UrlResult>)
    requires |f.rows| > 0 && MCell(f, 0).Null?
    ensures MAfter(f, SourceStartRow, |f.rows|, process)[0] == Kept(Null)
    ensures NotNullCount(MAfter(f, SourceStartRow, |f.rows|, process)) < |f.rows|
  {
    NotNullCountBelow(MAfter(f, SourceStartRow, |f.rows|, process), 0);
  }

  /** Starting at the first row under the header, a run in which every pending row has a URL
      and is processed successfully leaves no row to do. */
  lemma FromFirstDataRowCompletes(f: Frame, process: Cell -> Option<UrlResult>)
    requires forall i :: 0 <= i < |f.rows| && MCell(f, i).Null? ==>
      Truthy(UrlCell(f, i)) && process(UrlCell(f, i)).Some?
    ensures NotNullCount(MAfter(f, 0, |f.rows|, process)) == |f.rows|
  {
    NotNullCountFull(MAfter(f, 0, |f.rows|, process));
  }
}
