/** `find_pdf_urls` (INGredients_Analysis/Extractsccspdfs.py): `re.findall` of the pattern
    `https?://[^\s;"'<>]+?\.pdf` under `re.IGNORECASE`, then `dict.fromkeys` to drop
    repeated URLs while keeping their first-occurrence order.

    The regular-expression engine is modelled by what it does on this one pattern: at each
    position, from left to right, it tries the scheme, then the shortest body followed by
    `.pdf`; after a match it resumes at the match's end, otherwise at the next position. */
module PdfUrlScan {
  import opened Common
  import opened Strings
  import Dedup

  /** A character the class `[^\s;"'<>]` accepts. */
  predicate BodyChar(c: char) {
    !IsSpace(c) && c != ';' && c != '"' && c != '\'' && c != '<' && c != '>'
  }

  /** The lower-case `pat` occurs at `i`, ignoring the case of ASCII letters. */
  predicate CiAt(t: string, i: int, pat: string) {
    0 <= i && i + |pat| <= |t| && LowerStr(t[i..i + |pat|]) == pat
  }

  predicate AllBody(t: string, lo: int, hi: int)
    requires 0 <= lo <= hi <= |t|
  {
    forall k :: lo <= k < hi ==> BodyChar(t[k])
  }

  /** The body starts at `b` and the match ends at `e`: at least one body character, then
      `.pdf`, and no earlier `.pdf` after the first body character (the `+?` is lazy). */
  predicate LazyBody(t: string, b: nat, e: nat) {
    b + 5 <= e <= |t| && AllBody(t, b, e - 4) && CiAt(t, e - 4, ".pdf") &&
    forall j :: b + 1 <= j < e - 4 ==> !CiAt(t, j, ".pdf")
  }

  /** The declarative reading of the pattern: `t[p..e]` is what the lazy pattern matches
      when tried at `p`. */
  predicate IsLazyMatch(t: string, p: nat, e: nat) {
    (CiAt(t, p, "https://") && LazyBody(t, p + 8, e)) ||
    (CiAt(t, p, "http://") && LazyBody(t, p + 7, e))
  }

  /** The length of the scheme at `p`; `s?` is greedy, and `https://` and `http://` cannot
      both occur at one position. */
  function SchemeLen(t: string, p: nat): nat {
    if CiAt(t, p, "https://") then 8 else if CiAt(t, p, "http://") then 7 else 0
  }

  /** The lazy body: `t[j - 1]` is the last body character so far; stop at the first
      `.pdf`, otherwise take one more body character. */
  function LazyEnd(t: string, j: nat): (r: Option<nat>)
    requires j >= 1
    ensures r.Some? ==> j + 4 <= r.value <= |t|
    decreases |t| + 1 - j
  {
    if j > |t| || !BodyChar(t[j - 1]) then None
    else if CiAt(t, j, ".pdf") then Some(j + 4)
    else LazyEnd(t, j + 1)
  }

  /** The end of the match tried at `p`, if the pattern matches there. */
  function MatchAt(t: string, p: nat): (r: Option<nat>)
    ensures r.Some? ==> p < r.value <= |t|
  {
    var s := SchemeLen(t, p);
    if s == 0 then None else LazyEnd(t, p + s + 1)
  }

  /** The search from `j` on finds exactly the lazy end, when the body so far is valid and
      holds no `.pdf`. */
  lemma {:induction false} LazyEndSpec(t: string, b: nat, j: nat, e: nat)
    requires b + 1 <= j && j - 1 <= |t| && AllBody(t, b, j - 1)
    requires forall k :: b + 1 <= k < j ==> !CiAt(t, k, ".pdf")
    ensures LazyEnd(t, j) == Some(e) <==> LazyBody(t, b, e)
    decreases |t| + 1 - j
  {
    if j > |t| || !BodyChar(t[j - 1]) {
    } else if CiAt(t, j, ".pdf") {
      if LazyBody(t, b, e) {
        assert !(e - 4 < j) && !(j < e - 4);
      }
    } else {
      LazyEndSpec(t, b, j + 1, e);
    }
  }

  /** `https://` and `http://` differ at their fifth character. */
  lemma SchemesExclusive(t: string, p: nat)
    ensures !(CiAt(t, p, "https://") && CiAt(t, p, "http://"))
  {
    if CiAt(t, p, "https://") {
      assert LowerStr(t[p..p + 8])[4] == Lower(t[p + 4]) == 's';
      assert LowerStr(t[p..p + 7])[4] == Lower(t[p + 4]);
    }
  }

  /** The operational match agrees with the declarative one, in both directions. */
  lemma MatchAtSpec(t: string, p: nat, e: nat)
    ensures MatchAt(t, p) == Some(e) <==> IsLazyMatch(t, p, e)
  {
    SchemesExclusive(t, p);
    if CiAt(t, p, "https://") {
      LazyEndSpec(t, p + 8, p + 9, e);
    } else if CiAt(t, p, "http://") {
      LazyEndSpec(t, p + 7, p + 8, e);
    }
  }

  /** The pattern matches at no position in `lo .. hi - 1`. */
  predicate NoMatchIn(t: string, lo: int, hi: int) {
    forall q: nat | lo <= q < hi :: MatchAt(t, q).None?
  }

  /** A stretch where the scanner finds nothing holds no lazy match at all. */
  lemma NoMatchInSpec(t: string, lo: int, hi: int)
    requires NoMatchIn(t, lo, hi)
    ensures forall q: nat, e: nat | lo <= q < hi && e <= |t| :: !IsLazyMatch(t, q, e)
  {
    forall q: nat, e: nat | lo <= q < hi && e <= |t| ensures !IsLazyMatch(t, q, e) {
      MatchAtSpec(t, q, e);
    }
  }

  /** `re.findall`'s scan from `pos`: the spans of the matches, left to right, each
      starting where the previous one ended or later. */
  function Scan(t: string, pos: nat): (spans: seq<(nat, nat)>)
    ensures forall k :: 0 <= k < |spans| ==> pos <= spans[k].0 < spans[k].1 <= |t|
    ensures forall k :: 0 <= k < |spans| - 1 ==> spans[k].1 <= spans[k + 1].0
    decreases |t| - pos
  {
    if pos >= |t| then []
    else match MatchAt(t, pos)
      case Some(e) => [(pos, e)] + Scan(t, e)
      case None => Scan(t, pos + 1)
  }

  /** Every span the scan reports is a lazy match. */
  lemma {:induction false} ScanMatches(t: string, pos: nat)
    ensures forall k :: 0 <= k < |Scan(t, pos)| ==> IsLazyMatch(t, Scan(t, pos)[k].0, Scan(t, pos)[k].1)
    decreases |t| - pos
  {
    if pos < |t| {
      match MatchAt(t, pos)
      case Some(e) =>
        MatchAtSpec(t, pos, e);
        ScanMatches(t, e);
      case None =>
        ScanMatches(t, pos + 1);
    }
  }

  /** No match starts before the first span, between two spans, or after the last. */
  predicate GapsClear(t: string, pos: nat, s: seq<(nat, nat)>) {
    NoMatchIn(t, pos, if s == [] then |t| else s[0].0) &&
    (forall k :: 0 <= k < |s| - 1 ==> NoMatchIn(t, s[k].1, s[k + 1].0)) &&
    (s != [] ==> NoMatchIn(t, s[|s| - 1].1, |t|))
  }

  /** The scan is leftmost: the pattern matches nowhere in the gaps before, between and
      after the spans it reports. */
  lemma {:induction false} ScanGaps(t: string, pos: nat)
    ensures GapsClear(t, pos, Scan(t, pos))
    decreases |t| - pos
  {
    if pos < |t| {
      match MatchAt(t, pos)
      case Some(e) =>
        ScanGaps(t, e);
        GapsAfterMatch(t, pos, e);
      case None =>
        ScanGaps(t, pos + 1);
        GapsAfterMiss(t, pos);
    }
  }

  lemma GapsAfterMatch(t: string, pos: nat, e: nat)
    requires pos < |t| && MatchAt(t, pos) == Some(e)
    requires GapsClear(t, e, Scan(t, e))
    ensures GapsClear(t, pos, Scan(t, pos))
  {
    assert Scan(t, pos) == [(pos, e)] + Scan(t, e);
    GapsCons(t, pos, e, Scan(t, e));
  }

  /** Clear gaps after a span stay clear with the span put in front. */
  lemma GapsCons(t: string, pos: nat, e: nat, rest: seq<(nat, nat)>)
    requires GapsClear(t, e, rest)
    ensures GapsClear(t, pos, [(pos, e)] + rest)
  {
    var s := [(pos, e)] + rest;
    forall k | 0 <= k < |s| - 1 ensures NoMatchIn(t, s[k].1, s[k + 1].0) {
      if k > 0 { assert s[k] == rest[k - 1] && s[k + 1] == rest[k]; }
    }
    if rest != [] {
      assert s[|s| - 1] == rest[|rest| - 1];
    }
  }

  lemma GapsAfterMiss(t: string, pos: nat)
    requires pos < |t| && MatchAt(t, pos).None?
    requires GapsClear(t, pos + 1, Scan(t, pos + 1))
    ensures GapsClear(t, pos, Scan(t, pos))
  {
    var s := Scan(t, pos);
    assert s == Scan(t, pos + 1);
    var first := if s == [] then |t| else s[0].0;
    assert NoMatchIn(t, pos + 1, first);
    forall q: nat | pos <= q < first ensures MatchAt(t, q).None? {
      if q > pos { assert pos + 1 <= q < first; }
    }
  }

  /** The matched texts, in order. */
  function FindAll(t: string): (urls: seq<string>) {
    var s := Scan(t, 0);
    seq(|s|, k requires 0 <= k < |s| => t[s[k].0..s[k].1])
  }

  lemma {:induction false} LowerStrSlice(t: string, lo: int, hi: int, i: int, n: int)
    requires 0 <= lo <= hi <= |t| && 0 <= i && i + n <= hi - lo && 0 <= n
    ensures LowerStr(t[lo..hi][i..i + n]) == LowerStr(t[lo + i..lo + i + n])
  {
    var x, y := t[lo..hi][i..i + n], t[lo + i..lo + i + n];
    forall k | 0 <= k < n ensures x[k] == y[k] {
      assert x[k] == t[lo + i + k];
    }
    assert x == y;
  }

  /** Case-insensitive occurrences inside `t[lo..hi]` are those of `t`, shifted by `lo`. */
  lemma SliceCiAt(t: string, lo: nat, hi: nat, j: nat, pat: string)
    requires lo <= hi <= |t| && j + |pat| <= hi - lo
    ensures CiAt(t[lo..hi], j, pat) <==> CiAt(t, lo + j, pat)
  {
    LowerStrSlice(t, lo, hi, j, |pat|);
  }

  lemma SliceAllBody(t: string, lo: nat, hi: nat, i: nat, k: nat)
    requires lo <= hi <= |t| && i <= k <= hi - lo && AllBody(t, lo + i, lo + k)
    ensures AllBody(t[lo..hi], i, k)
  {
    forall m | i <= m < k ensures BodyChar(t[lo..hi][m]) {
      assert t[lo..hi][m] == t[lo + m];
    }
  }

  /** A lazy body keeps its shape when cut out together with what precedes it from `lo`. */
  lemma BodyStandsAlone(t: string, lo: nat, b: nat, e: nat)
    requires lo <= b && LazyBody(t, b, e)
    ensures LazyBody(t[lo..e], b - lo, e - lo)
  {
    var u := t[lo..e];
    SliceCiAt(t, lo, e, e - 4 - lo, ".pdf");
    forall j | b - lo + 1 <= j < e - lo - 4 ensures !CiAt(u, j, ".pdf") {
      SliceCiAt(t, lo, e, j, ".pdf");
    }
    SliceAllBody(t, lo, e, b - lo, e - lo - 4);
  }

  /** A match, cut out of its text, is a whole match of itself. */
  lemma MatchStandsAlone(t: string, p: nat, e: nat)
    requires IsLazyMatch(t, p, e)
    ensures p <= e <= |t| && IsLazyMatch(t[p..e], 0, e - p)
  {
    SchemesExclusive(t, p);
    if CiAt(t, p, "https://") {
      BodyStandsAlone(t, p, p + 8, e);
      SliceCiAt(t, p, e, 0, "https://");
    } else {
      BodyStandsAlone(t, p, p + 7, e);
      SliceCiAt(t, p, e, 0, "http://");
    }
  }

  /** `find_pdf_urls`: `[]` for anything but text; otherwise the matched texts with repeats
      dropped, first occurrences kept in order. */
  function FindPdfUrls(v: Cell): seq<string> {
    if !v.Text? then [] else Dedup.DedupBy(FindAll(v.s), Identity)
  }

  /** The URLs found are pairwise distinct, and every one is one whole lazy match: it starts
      with `http://` or `https://` and ends with `.pdf` (in any case), holds at least one body
      character and no earlier `.pdf` after its first body character; and every matched text
      is among the URLs. */
  lemma FindPdfUrlsSpec(v: Cell)
    ensures !v.Text? ==> FindPdfUrls(v) == []
    ensures var urls := FindPdfUrls(v); forall i, j :: 0 <= i < j < |urls| ==> urls[i] != urls[j]
    ensures forall u :: u in FindPdfUrls(v) ==> IsLazyMatch(u, 0, |u|)
    ensures v.Text? ==> forall u :: u in FindAll(v.s) <==> u in FindPdfUrls(v)
  {
    if v.Text? {
      var found := FindAll(v.s);
      var urls := Dedup.DedupBy(found, Identity);
      Dedup.DedupByDistinct(found, Identity);
      FoundUrlsAreMatches(v.s);
      DedupMembers(found, urls);
    }
  }

  function Identity(s: string): string {
    s
  }

  /** Every matched text is a whole lazy match. */
  lemma FoundUrlsAreMatches(t: string)
    ensures forall u :: u in FindAll(t) ==> IsLazyMatch(u, 0, |u|)
  {
    var found := FindAll(t);
    forall k | 0 <= k < |found| ensures IsLazyMatch(found[k], 0, |found[k]|) {
      FoundAt(t, k);
    }
  }

  /** The `k`-th matched text is a whole lazy match. */
  lemma FoundAt(t: string, k: nat)
    requires k < |FindAll(t)|
    ensures IsLazyMatch(FindAll(t)[k], 0, |FindAll(t)[k]|)
  {
    var s := Scan(t, 0);
    ScanMatches(t, 0);
    var p, e := s[k].0, s[k].1;
    assert IsLazyMatch(t, p, e);
    assert FindAll(t)[k] == t[p..e];
    MatchStandsAlone(t, p, e);
  }

  /** De-duplicating strings keeps exactly the strings of the input. */
  lemma DedupMembers(found: seq<string>, urls: seq<string>)
    requires urls == Dedup.DedupBy(found, Identity)
    ensures forall u :: u in found <==> u in urls
  {
    Dedup.DedupByKeys(found, Identity);
    forall u ensures u in found <==> u in urls {
      if u in found {
        var i :| 0 <= i < |found| && found[i] == u;
        assert Identity(found[i]) in Dedup.KeySet(urls, Identity);
      }
      if u in urls {
        var i :| 0 <= i < |urls| && urls[i] == u;
        assert Identity(urls[i]) in Dedup.KeySet(found, Identity);
      }
    }
  }
}
