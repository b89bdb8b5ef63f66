/** `find_all_pdf_links` (OECDSIDS/TESTSTEP2.py and its twin in
    OECDSIDS/step2_extractfromxls.py) and the collection of the links found on every
    visited page into one list without repeated URLs.

    The parsed page is an input: the `<a href=…>` anchors with their stripped text, and the
    `<embed>`, `<object>` and `<iframe>` elements with their `src` and `data` attributes, each
    in document order. `urljoin` is the parameter `join`. */
module PdfLinks {
  import opened Common
  import opened Strings
  import Dedup

  /** An `<a>` element that has an `href` attribute; `text` is `get_text(strip=True)`. */
  datatype Anchor = Anchor(href: string, text: string)

  /** An `<embed>`, `<object>` or `<iframe>` element. */
  datatype Embedded = Embedded(src: Option<string>, data: Option<string>)

  datatype Page = Page(anchors: seq<Anchor>, embeds: seq<Embedded>, objects: seq<Embedded>, iframes: seq<Embedded>)

  /** The `source` field: `'link'`, or the tag name of the embedding element. */
  datatype Source = Link | Embed | Object | Iframe

  /** One entry of the result. `linkText` is `Some` in the OECDSIDS/TESTSTEP2.py version,
      which stores `link_text`, and `None` in OECDSIDS/step2_extractfromxls.py, which
      stores only `filename`, `url` and `source`. */
  datatype PdfLink = PdfLink(filename: string, url: string, source: Source, linkText: Option<string>)

  function UrlOf(l: PdfLink): string {
    l.url
  }

  /** The candidate test: the lower-cased reference mentions `.pdf` or `handler.axd`. */
  predicate MentionsPdf(s: string) {
    Contains(LowerStr(s), ".pdf") || Contains(LowerStr(s), "handler.axd")
  }

  /** The file name of an anchor: its text when that ends with `.pdf`; otherwise, for a
      `.pdf` reference, the last path segment of the reference cut at the first `?`;
      otherwise (a `handler.axd` reference) the text, or `document.pdf`, with `.pdf`
      appended when missing. */
  function AnchorFilename(href: string, text: string): (f: string)
    ensures text != "" && EndsWith(text, ".pdf") ==> f == text
    ensures !(text != "" && EndsWith(text, ".pdf")) && Contains(LowerStr(href), ".pdf") ==>
      f == BeforeFirst(LastSegment(href, '/'), '?') && '/' !in f && '?' !in f
    ensures !(text != "" && EndsWith(text, ".pdf")) && !Contains(LowerStr(href), ".pdf") ==>
      EndsWith(f, ".pdf") &&
      (text == "" ==> f == "document.pdf") &&
      (text != "" ==> f == text + ".pdf")
  {
    if text != "" && EndsWith(text, ".pdf") then text
    else if Contains(LowerStr(href), ".pdf") then BeforeFirst(LastSegment(href, '/'), '?')
    else
      var name := if text != "" then text else "document.pdf";
      assert EndsWith(name + ".pdf", ".pdf");
      if EndsWith(name, ".pdf") then name else name + ".pdf"
  }

  /** The file name of an embedded document: the last path segment of its reference, or
      `document.pdf` when that is empty, with `.pdf` appended when missing. */
  function EmbedFilename(src: string): string {
    var seg := LastSegment(src, '/');
    var name := if seg != "" then seg else "document.pdf";
    if EndsWith(name, ".pdf") then name else name + ".pdf"
  }

  /** The fallback name is itself a `.pdf` name without a `/`. */
  lemma DocumentPdfName()
    ensures EndsWith("document.pdf", ".pdf") && '/' !in "document.pdf"
  {
    var d := "document.pdf";
    assert d[|d| - 4..] == ".pdf";
    forall i | 0 <= i < |d| ensures d[i] != '/' {
    }
  }

  /** The name always ends in `.pdf` and holds no `/`; it is `document.pdf` when the last
      segment is empty, the segment itself when that already ends in `.pdf`, and otherwise
      the segment with `.pdf` appended once. */
  lemma EmbedFilenameSpec(src: string)
    ensures EndsWith(EmbedFilename(src), ".pdf") && '/' !in EmbedFilename(src)
    ensures LastSegment(src, '/') == "" ==> EmbedFilename(src) == "document.pdf"
    ensures LastSegment(src, '/') != "" ==> StartsWith(EmbedFilename(src), LastSegment(src, '/'))
    ensures EndsWith(LastSegment(src, '/'), ".pdf") ==> EmbedFilename(src) == LastSegment(src, '/')
    ensures LastSegment(src, '/') != "" && !EndsWith(LastSegment(src, '/'), ".pdf") ==>
      EmbedFilename(src) == LastSegment(src, '/') + ".pdf"
  {
    var seg := LastSegment(src, '/');
    var name := if seg != "" then seg else "document.pdf";
    DocumentPdfName();
    assert '/' !in name;
    if !EndsWith(name, ".pdf") {
      var f := name + ".pdf";
      assert f[|f| - 4..] == ".pdf";
      assert f[..|name|] == name;
      forall i | 0 <= i < |f| ensures f[i] != '/' {
        if i < |name| { assert f[i] == name[i]; }
      }
    }
  }

  /** `elem.get('src') or elem.get('data')`. */
  function ChosenRef(e: Embedded): Option<string> {
    if e.src.Some? && e.src.value != "" then e.src else e.data
  }

  predicate EmbeddedQualifies(e: Embedded) {
    ChosenRef(e).Some? && ChosenRef(e).value != "" && MentionsPdf(ChosenRef(e).value)
  }

  function AnchorLink(a: Anchor, base: string, join: (string, string) -> string, withText: bool): PdfLink {
    PdfLink(AnchorFilename(a.href, a.text), join(base, a.href), Link,
            if withText then Some(a.text) else None)
  }

  function EmbeddedLink(e: Embedded, tag: Source, base: string, join: (string, string) -> string, withText: bool): PdfLink
    requires EmbeddedQualifies(e)
  {
    var src := ChosenRef(e).value;
    PdfLink(EmbedFilename(src), join(base, src), tag, if withText then Some("") else None)
  }

  /** The entries the anchor loop appends, in document order. */
  function AnchorLinks(anchors: seq<Anchor>, base: string, join: (string, string) -> string, withText: bool): seq<PdfLink> {
    if anchors == [] then []
    else
      var prev := AnchorLinks(anchors[..|anchors| - 1], base, join, withText);
      var a := anchors[|anchors| - 1];
      if MentionsPdf(a.href) then prev + [AnchorLink(a, base, join, withText)] else prev
  }

  /** The entries the loop over the elements of one tag appends, in document order. */
  function EmbeddedLinks(elems: seq<Embedded>, tag: Source, base: string, join: (string, string) -> string, withText: bool): seq<PdfLink> {
    if elems == [] then []
    else
      var prev := EmbeddedLinks(elems[..|elems| - 1], tag, base, join, withText);
      var e := elems[|elems| - 1];
      if EmbeddedQualifies(e) then prev + [EmbeddedLink(e, tag, base, join, withText)] else prev
  }

  /** The tags in the order the source visits them: `embed`, `object`, `iframe`. */
  function Groups(page: Page): seq<(Source, seq<Embedded>)> {
    [(Embed, page.embeds), (Object, page.objects), (Iframe, page.iframes)]
  }

  function GroupLinks(groups: seq<(Source, seq<Embedded>)>, base: string, join: (string, string) -> string, withText: bool): seq<PdfLink> {
    if groups == [] then []
    else
      var g := groups[|groups| - 1];
      GroupLinks(groups[..|groups| - 1], base, join, withText) + EmbeddedLinks(g.1, g.0, base, join, withText)
  }

  /** Every entry appended before de-duplication, in order. */
  function Candidates(page: Page, base: string, join: (string, string) -> string, withText: bool): seq<PdfLink> {
    AnchorLinks(page.anchors, base, join, withText) + GroupLinks(Groups(page), base, join, withText)
  }

  /** An anchor yields an entry exactly when its lower-cased `href` mentions `.pdf` or
      `handler.axd`, and the entry is built from that anchor. */
  lemma {:induction false} AnchorLinksSpec(anchors: seq<Anchor>, base: string, join: (string, string) -> string, withText: bool)
    ensures forall l :: l in AnchorLinks(anchors, base, join, withText) <==>
      exists a :: a in anchors && MentionsPdf(a.href) && l == AnchorLink(a, base, join, withText)
  {
    if anchors != [] {
      var init, a := anchors[..|anchors| - 1], anchors[|anchors| - 1];
      assert anchors == init + [a];
      AnchorLinksSpec(init, base, join, withText);
    }
  }

  /** An embedded element yields an entry exactly when it has a non-empty `src` (or, failing
      that, `data`) mentioning `.pdf` or `handler.axd`; the entry carries the element's tag. */
  lemma {:induction false} EmbeddedLinksSpec(elems: seq<Embedded>, tag: Source, base: string, join: (string, string) -> string, withText: bool)
    ensures forall l :: l in EmbeddedLinks(elems, tag, base, join, withText) <==>
      exists e :: e in elems && EmbeddedQualifies(e) && l == EmbeddedLink(e, tag, base, join, withText)
  {
    if elems != [] {
      var init, e := elems[..|elems| - 1], elems[|elems| - 1];
      assert elems == init + [e];
      EmbeddedLinksSpec(init, tag, base, join, withText);
    }
  }

  /** The loop over the elements of one tag. */
  method AppendEmbedded(acc: seq<PdfLink>, elems: seq<Embedded>, tag: Source, base: string, join: (string, string) -> string, withText: bool)
    returns (r: seq<PdfLink>)
    ensures r == acc + EmbeddedLinks(elems, tag, base, join, withText)
  {
    r := acc;
    for i := 0 to |elems|
      invariant r == acc + EmbeddedLinks(elems[..i], tag, base, join, withText)
    {
      assert elems[..i + 1][..i] == elems[..i];
      var e := elems[i];
      var src := if e.src.Some? && e.src.value != "" then e.src else e.data;
      assert src == ChosenRef(e);
      if src.Some? && src.value != "" && MentionsPdf(src.value) {
        r := r + [EmbeddedLink(e, tag, base, join, withText)];
      }
    }
    assert elems[..|elems|] == elems;
  }

  /** The anchor loop of `find_all_pdf_links`. */
  method CollectAnchors(anchors: seq<Anchor>, base: string, join: (string, string) -> string, withText: bool)
    returns (pdfLinks: seq<PdfLink>)
    ensures pdfLinks == AnchorLinks(anchors, base, join, withText)
  {
    pdfLinks := [];
    for i := 0 to |anchors|
      invariant pdfLinks == AnchorLinks(anchors[..i], base, join, withText)
    {
      assert anchors[..i + 1][..i] == anchors[..i];
      var a := anchors[i];
      if MentionsPdf(a.href) {
        pdfLinks := pdfLinks + [AnchorLink(a, base, join, withText)];
      }
    }
    assert anchors[..|anchors|] == anchors;
  }

  /** The `for tag in ['embed', 'object', 'iframe']` loop. */
  method CollectEmbedded(acc: seq<PdfLink>, groups: seq<(Source, seq<Embedded>)>, base: string,
                         join: (string, string) -> string, withText: bool)
    returns (pdfLinks: seq<PdfLink>)
    ensures pdfLinks == acc + GroupLinks(groups, base, join, withText)
  {
    pdfLinks := acc;
    for t := 0 to |groups|
      invariant pdfLinks == acc + GroupLinks(groups[..t], base, join, withText)
    {
      assert groups[..t + 1][..t] == groups[..t];
      pdfLinks := AppendEmbedded(pdfLinks, groups[t].1, groups[t].0, base, join, withText);
    }
    assert groups[..|groups|] == groups;
  }

  /** The two collecting loops of `find_all_pdf_links`: anchors first, then the elements of
      each embedding tag. */
  method CollectCandidates(page: Page, base: string, join: (string, string) -> string, withText: bool)
    returns (pdfLinks: seq<PdfLink>)
    ensures pdfLinks == Candidates(page, base, join, withText)
  {
    pdfLinks := CollectAnchors(page.anchors, base, join, withText);
    pdfLinks := CollectEmbedded(pdfLinks, Groups(page), base, join, withText);
  }

  /** `find_all_pdf_links`: the qualifying anchors, then the qualifying `embed`, `object` and
      `iframe` elements, de-duplicated by URL keeping the first entry. The result has
      pairwise distinct URLs, every entry is a candidate, and every candidate URL is kept. */
  method FindAllPdfLinks(page: Page, base: string, join: (string, string) -> string, withText: bool)
    returns (links: seq<PdfLink>)
    ensures links == Dedup.DedupBy(Candidates(page, base, join, withText), UrlOf)
    ensures forall i, j :: 0 <= i < j < |links| ==> links[i].url != links[j].url
    ensures forall l :: l in links ==> l in Candidates(page, base, join, withText)
    ensures forall c :: c in Candidates(page, base, join, withText) ==>
      exists l :: l in links && l.url == c.url
  {
    var pdfLinks := CollectCandidates(page, base, join, withText);
    links := Dedup.DedupByKey(pdfLinks, UrlOf);
    UniqueByUrl(pdfLinks);
  }

  /** What de-duplication by URL guarantees about any list of entries. */
  lemma UniqueByUrl(xs: seq<PdfLink>)
    ensures forall i, j :: 0 <= i < j < |Dedup.DedupBy(xs, UrlOf)| ==>
      Dedup.DedupBy(xs, UrlOf)[i].url != Dedup.DedupBy(xs, UrlOf)[j].url
    ensures forall l :: l in Dedup.DedupBy(xs, UrlOf) ==> l in xs
    ensures forall c :: c in xs ==> exists l :: l in Dedup.DedupBy(xs, UrlOf) && l.url == c.url
  {
    var r := Dedup.DedupBy(xs, UrlOf);
    Dedup.DedupByDistinct(xs, UrlOf);
    Dedup.DedupByFirstOccurrences(xs, UrlOf);
    Dedup.DedupByKeys(xs, UrlOf);
    forall c | c in xs
      ensures exists l :: l in r && l.url == c.url
    {
      var i :| 0 <= i < |xs| && xs[i] == c;
      assert UrlOf(xs[i]) in Dedup.KeySet(xs, UrlOf);
      var j :| 0 <= j < |r| && UrlOf(r[j]) == c.url;
      assert r[j] in r;
    }
  }

  function Flatten(pages: seq<seq<PdfLink>>): seq<PdfLink> {
    if pages == [] then [] else Flatten(pages[..|pages| - 1]) + pages[|pages| - 1]
  }

  /** The links of all visited pages, each page's list appended in visit order
      (`all_pdf_links.extend(pdfs)`), then de-duplicated by URL: no URL is repeated across
      pages, and every URL found on any page is kept. */
  method CollectUnique(pages: seq<seq<PdfLink>>) returns (unique: seq<PdfLink>)
    ensures unique == Dedup.DedupBy(Flatten(pages), UrlOf)
    ensures forall i, j :: 0 <= i < j < |unique| ==> unique[i].url != unique[j].url
    ensures forall l :: l in unique ==> exists p :: 0 <= p < |pages| && l in pages[p]
    ensures Dedup.KeySet(unique, UrlOf) == Dedup.KeySet(Flatten(pages), UrlOf)
  {
    var all: seq<PdfLink> := [];
    for i := 0 to |pages|
      invariant all == Flatten(pages[..i])
    {
      assert pages[..i + 1][..i] == pages[..i];
      if pages[i] != [] {
        all := all + pages[i];
      }
    }
    assert pages[..|pages|] == pages;
    unique := Dedup.DedupByKey(all, UrlOf);
    UniqueByUrl(all);
    Dedup.DedupByKeys(all, UrlOf);
    FlattenMembers(pages);
  }

  lemma {:induction false} FlattenMembers(pages: seq<seq<PdfLink>>)
    ensures forall l :: l in Flatten(pages) <==> exists p :: 0 <= p < |pages| && l in pages[p]
  {
    if pages != [] {
      var init := pages[..|pages| - 1];
      FlattenMembers(init);
      forall p | 0 <= p < |init| ensures init[p] == pages[p] { }
    }
  }
}
