/** The PDF part of `test_oecd_with_json` (OECDSIDS/TESTSTEP2.py): the links found in every
    iframe are concatenated, de-duplicated by URL once more, and each survivor is downloaded
    under a file name with its path separators replaced, giving one `pdf_files` entry each.

    The page visits are given as the per-page link lists, and a download is an opaque
    outcome per URL. */
module OecdJsonTest {
  import opened Common
  import opened Strings
  import opened PdfLinks
  import Dedup

  /** What `download_pdf` reports: the size written, or the text of the exception. */
  datatype DownloadResult = Saved(size: nat) | DownloadError(message: string)

  /** One `pdf_info` entry of `result['pdf_files']`. */
  datatype PdfFileInfo = PdfFileInfo(
    index: nat,
    filename: string,
    originalFilename: string,
    url: string,
    linkText: string,
    source: Source,
    downloadSuccess: bool,
    fileSizeBytes: Option<nat>,
    error: Option<string>)

  /** `filename.replace('/', '_').replace('\\', '_')`: the same name with every slash and
      backslash turned into an underscore, and no other change. */
  function SafeFilename(f: string): (r: string)
    ensures '/' !in r && '\\' !in r
    ensures |r| == |f|
    ensures forall i :: 0 <= i < |f| ==> r[i] == if f[i] == '/' || f[i] == '\\' then '_' else f[i]
  {
    var once := ReplaceAll(f, "/", "_");
    ReplaceCharAt(f, '/', '_');
    ReplaceCharAt(once, '\\', '_');
    var r := ReplaceAll(once, "\\", "_");
    assert forall i :: 0 <= i < |r| ==> r[i] != '/' && r[i] != '\\';
    r
  }

  /** The entry for the `index`-th unique link, given how its download went. */
  function FileInfo(index: nat, link: PdfLink, outcome: DownloadResult): PdfFileInfo {
    PdfFileInfo(
      index, SafeFilename(link.filename), link.filename, link.url, link.linkText.GetOr(""),
      link.source, outcome.Saved?,
      if outcome.Saved? then Some(outcome.size) else None,
      if outcome.Saved? then None else Some(outcome.message))
  }

  /** The download loop: one entry per link, numbered from 1 in link order. */
  method DownloadAll(links: seq<PdfLink>, download: string -> DownloadResult) returns (files: seq<PdfFileInfo>)
    ensures |files| == |links|
    ensures forall i :: 0 <= i < |links| ==> files[i] == FileInfo(i + 1, links[i], download(links[i].url))
    ensures forall i :: 0 <= i < |links| ==> files[i].index == i + 1 && files[i].url == links[i].url
    ensures forall i :: 0 <= i < |links| ==> '/' !in files[i].filename && '\\' !in files[i].filename
    ensures forall i :: 0 <= i < |links| ==> (files[i].downloadSuccess <==> download(links[i].url).Saved?)
  {
    files := [];
    for i := 0 to |links|
      invariant |files| == i
      invariant forall k :: 0 <= k < i ==> files[k] == FileInfo(k + 1, links[k], download(links[k].url))
    {
      var pdf := links[i];
      var safeFilename := SafeFilename(pdf.filename);
      var outcome := download(pdf.url);
      var info := PdfFileInfo(i + 1, safeFilename, pdf.filename, pdf.url, pdf.linkText.GetOr(""),
        pdf.source, outcome.Saved?, None, None);
      if outcome.Saved? {
        info := info.(fileSizeBytes := Some(outcome.size));
      } else {
        info := info.(error := Some(outcome.message));
      }
      files := files + [info];
    }
    forall i | 0 <= i < |links|
      ensures '/' !in files[i].filename && '\\' !in files[i].filename
    {
      FileInfoShape(i + 1, links[i], download(links[i].url));
    }
  }

  /** Every entry keeps the link's URL and original name, carries a name with no path
      separator, and records a size exactly when the download succeeded and an error
      exactly when it failed. */
  lemma FileInfoShape(index: nat, link: PdfLink, outcome: DownloadResult)
    ensures var info := FileInfo(index, link, outcome);
      info.index == index && info.url == link.url && info.originalFilename == link.filename &&
      '/' !in info.filename && '\\' !in info.filename && |info.filename| == |link.filename| &&
      (info.downloadSuccess <==> outcome.Saved?) &&
      (info.fileSizeBytes.Some? <==> info.downloadSuccess) &&
      (info.error.Some? <==> !info.downloadSuccess)
  {
  }

  /** The links of all pages after the global de-duplication, then downloaded: entry `i`
      comes from the `i`-th de-duplicated link, so the entries are numbered 1..n in that
      order, their URLs are pairwise distinct and are exactly the URLs found on the pages,
      and each name is free of path separators. */
  method HarvestAndDownload(pages: seq<seq<PdfLink>>, download: string -> DownloadResult)
    returns (files: seq<PdfFileInfo>)
    ensures |files| == |Dedup.DedupBy(Flatten(pages), UrlOf)|
    ensures var unique := Dedup.DedupBy(Flatten(pages), UrlOf);
      forall i :: 0 <= i < |files| ==> files[i] == FileInfo(i + 1, unique[i], download(unique[i].url))
    ensures forall i :: 0 <= i < |files| ==> files[i].index == i + 1
    ensures forall i, j :: 0 <= i < j < |files| ==> files[i].url != files[j].url
    ensures (set i | 0 <= i < |files| :: files[i].url) == Dedup.KeySet(Flatten(pages), UrlOf)
    ensures forall i :: 0 <= i < |files| ==> '/' !in files[i].filename && '\\' !in files[i].filename
    ensures forall i :: 0 <= i < |files| ==> (files[i].downloadSuccess <==> download(files[i].url).Saved?)
  {
    var unique := CollectUnique(pages);
    files := DownloadAll(unique, download);
    assert (set i | 0 <= i < |files| :: files[i].url) == Dedup.KeySet(unique, UrlOf);
  }
}
