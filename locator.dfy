/**
 * The content search of `get_book_data` (gutenberg/crawl.py): a fixed, ordered list of
 * candidate URLs, probed one after the other until one yields non-empty text.
 */
module Locator {
  import opened Wrappers
  import opened Transport

  const Host := "https://www.gutenberg.org"
  const Extensions := ["epub", "html", "pdf", "txt", "txt.utf8"]
  const Versions: nat := 10

  /** Only EPUB and HTML also have a "no images" variant, probed first. */
  predicate HasNoImagesVariant(ext: string) {
    ext in ["epub", "html"]
  }

  /** `f"{base_url}/{book_id}{version}.{ext}"` with `base_url = f"https://www.gutenberg.org/files/{book_id}"`. */
  function FileUrl(id: string, version: string, ext: string): string {
    Host + "/files/" + id + "/" + id + version + "." + ext
  }

  /** The `-{i}` part of a versioned file name, for `i` in `range(10)`. */
  function VersionTag(i: nat): string
    requires i < Versions
  {
    "-" + [('0' as int + i) as char]
  }

  /** The URLs probed for one extension, in order. */
  function ExtensionUrls(id: string, version: string, ext: string): seq<string> {
    (if HasNoImagesVariant(ext) then [FileUrl(id, version, ext) + ".noimages"] else []) +
    [FileUrl(id, version, ext)]
  }

  /** The URLs probed for the extensions `exts`, in order. */
  function VersionUrls(id: string, version: string, exts: seq<string>): seq<string> {
    if exts == [] then []
    else VersionUrls(id, version, exts[..|exts| - 1]) + ExtensionUrls(id, version, exts[|exts| - 1])
  }

  /** The URLs probed for versions `0 .. n-1`. */
  function VersionedUrls(id: string, n: nat): seq<string>
    requires n <= Versions
  {
    if n == 0 then []
    else VersionedUrls(id, n - 1) + VersionUrls(id, VersionTag(n - 1), Extensions)
  }

  /** Every URL `get_book_data` may probe, in probing order. */
  function CandidateUrls(id: string): seq<string> {
    VersionedUrls(id, Versions) + VersionUrls(id, "", Extensions)
  }

  /** Reference listing of the seven forms of one version, written out in priority order. */
  function SevenForms(id: string, version: string): seq<string> {
    [FileUrl(id, version, "epub.noimages"), FileUrl(id, version, "epub"),
     FileUrl(id, version, "html.noimages"), FileUrl(id, version, "html"),
     FileUrl(id, version, "pdf"), FileUrl(id, version, "txt"), FileUrl(id, version, "txt.utf8")]
  }

  lemma VersionUrlsSnoc(id: string, version: string, exts: seq<string>, ext: string)
    ensures VersionUrls(id, version, exts + [ext]) == VersionUrls(id, version, exts) + ExtensionUrls(id, version, ext)
  {
    assert (exts + [ext])[..|exts|] == exts;
  }

  /** The "no images" URL is the file URL of the extension with `.noimages` appended. */
  lemma NoImagesUrl(id: string, version: string, ext: string)
    ensures FileUrl(id, version, ext) + ".noimages" == FileUrl(id, version, ext + ".noimages")
  {
    var base := Host + "/files/" + id + "/" + id + version + ".";
    assert FileUrl(id, version, ext) == base + ext;
    assert FileUrl(id, version, ext + ".noimages") == base + (ext + ".noimages");
  }

  /** Five extensions of which the first two have a "no images" variant give seven URLs. */
  lemma VersionUrlsOfFive(id: string, version: string, e1: string, e2: string, e3: string, e4: string, e5: string)
    requires HasNoImagesVariant(e1) && HasNoImagesVariant(e2)
    requires !HasNoImagesVariant(e3) && !HasNoImagesVariant(e4) && !HasNoImagesVariant(e5)
    ensures VersionUrls(id, version, [e1, e2, e3, e4, e5]) ==
      [FileUrl(id, version, e1) + ".noimages", FileUrl(id, version, e1),
       FileUrl(id, version, e2) + ".noimages", FileUrl(id, version, e2),
       FileUrl(id, version, e3), FileUrl(id, version, e4), FileUrl(id, version, e5)]
  {
    var x0: seq<string> := [];
    VersionUrlsSnoc(id, version, x0, e1);
    assert x0 + [e1] == [e1];
    VersionUrlsSnoc(id, version, [e1], e2);
    assert [e1] + [e2] == [e1, e2];
    VersionUrlsSnoc(id, version, [e1, e2], e3);
    assert [e1, e2] + [e3] == [e1, e2, e3];
    VersionUrlsSnoc(id, version, [e1, e2, e3], e4);
    assert [e1, e2, e3] + [e4] == [e1, e2, e3, e4];
    VersionUrlsSnoc(id, version, [e1, e2, e3, e4], e5);
    assert [e1, e2, e3, e4] + [e5] == [e1, e2, e3, e4, e5];
  }

  lemma VersionUrlsAreSevenForms(id: string, version: string)
    ensures VersionUrls(id, version, Extensions) == SevenForms(id, version)
  {
    NoImagesUrl(id, version, "epub");
    NoImagesUrl(id, version, "html");
    assert "epub" + ".noimages" == "epub.noimages";
    assert "html" + ".noimages" == "html.noimages";
    VersionUrlsOfFive(id, version, "epub", "html", "pdf", "txt", "txt.utf8");
  }

  lemma SliceOfLeft<T>(p: seq<T>, q: seq<T>, lo: nat, hi: nat)
    requires lo <= hi <= |p|
    ensures (p + q)[lo..hi] == p[lo..hi]
  {
  }

  lemma {:induction false} VersionedUrlsLayout(id: string, n: nat)
    requires n <= Versions
    ensures |VersionedUrls(id, n)| == 7 * n
    ensures forall i :: 0 <= i < n ==> VersionedUrls(id, n)[7 * i..7 * i + 7] == SevenForms(id, VersionTag(i))
  {
    if n > 0 {
      VersionedUrlsLayout(id, n - 1);
      var last := VersionTag(n - 1);
      VersionUrlsAreSevenForms(id, last);
      var prev := VersionedUrls(id, n - 1);
      var forms := SevenForms(id, last);
      var all := VersionedUrls(id, n);
      assert all == prev + forms;
      forall i | 0 <= i < n ensures all[7 * i..7 * i + 7] == SevenForms(id, VersionTag(i)) {
        if i < n - 1 {
          SliceOfLeft(prev, forms, 7 * i, 7 * i + 7);
        } else {
          assert all[7 * i..7 * i + 7] == forms;
        }
      }
    }
  }

  /**
   * Exactly 77 candidates: the seven forms of version 0, then of version 1, ... up to 9, then
   * the seven forms without a version.
   */
  lemma CandidateLayout(id: string)
    ensures |CandidateUrls(id)| == 77
    ensures forall i :: 0 <= i < Versions ==> CandidateUrls(id)[7 * i..7 * i + 7] == SevenForms(id, VersionTag(i))
    ensures CandidateUrls(id)[70..] == SevenForms(id, "")
  {
    VersionedUrlsLayout(id, Versions);
    VersionUrlsAreSevenForms(id, "");
    var c := CandidateUrls(id);
    var v := VersionedUrls(id, Versions);
    forall i | 0 <= i < Versions ensures c[7 * i..7 * i + 7] == SevenForms(id, VersionTag(i)) {
      assert c[7 * i..7 * i + 7] == v[7 * i..7 * i + 7];
    }
  }

  /** The text found (if any) and how many candidates were probed. */
  datatype Search = Search(text: Option<string>, probes: nat)

  /** Short-circuiting "first candidate whose fetch has text". */
  function FirstHit(net: Network, urls: seq<string>): Search {
    if urls == [] then Search(None, 0)
    else
      var t := Fetched(net, urls[0]);
      if HasText(t) then Search(t, 1)
      else
        var r := FirstHit(net, urls[1..]);
        Search(r.text, r.probes + 1)
  }

  /**
   * The first candidate with text wins and nothing after it is probed; there is no text iff
   * every candidate fetched nothing or the empty string, and then every candidate was probed.
   */
  lemma {:induction false} FirstHitSpec(net: Network, urls: seq<string>)
    ensures var r := FirstHit(net, urls);
      && r.probes <= |urls|
      && (r.text.Some? <==> exists k :: 0 <= k < |urls| && HasText(Fetched(net, urls[k])))
      && (r.text.Some? ==>
            && r.probes >= 1
            && r.text == Fetched(net, urls[r.probes - 1])
            && r.text.value != ""
            && forall k :: 0 <= k < r.probes - 1 ==> !HasText(Fetched(net, urls[k])))
      && (r.text.None? ==> r.probes == |urls|)
  {
    if urls != [] && !HasText(Fetched(net, urls[0])) {
      FirstHitSpec(net, urls[1..]);
      var r := FirstHit(net, urls[1..]);
      if r.text.Some? {
        forall k | 0 <= k < r.probes ensures !HasText(Fetched(net, urls[k])) {
          if k > 0 { assert urls[k] == urls[1..][k - 1]; }
        }
      }
      forall k | 0 <= k < |urls| && HasText(Fetched(net, urls[k]))
        ensures exists j :: 0 <= j < |urls[1..]| && HasText(Fetched(net, urls[1..][j]))
      {
        assert urls[k] == urls[1..][k - 1];
      }
    }
  }

  lemma MissesThenHit(net: Network, urls: seq<string>, n: nat)
    requires n < |urls|
    requires forall k :: 0 <= k < n ==> !HasText(Fetched(net, urls[k]))
    requires HasText(Fetched(net, urls[n]))
    ensures FirstHit(net, urls) == Search(Fetched(net, urls[n]), n + 1)
  {
    FirstHitSpec(net, urls);
    var r := FirstHit(net, urls);
    assert r.text.Some?;
    var p := r.probes - 1;
    assert HasText(Fetched(net, urls[p]));
    assert !(p < n);
    assert !(n < p);
  }

  lemma AllMisses(net: Network, urls: seq<string>)
    requires forall k :: 0 <= k < |urls| ==> !HasText(Fetched(net, urls[k]))
    ensures FirstHit(net, urls) == Search(None, |urls|)
  {
    FirstHitSpec(net, urls);
  }

  /** What `get_book_data(session, book_id)` returns. */
  function ContentOf(net: Network, id: string): Option<string> {
    FirstHit(net, CandidateUrls(id)).text
  }

  /** The content is found iff some candidate URL yields non-empty text, and it is never empty. */
  lemma ContentOfSpec(net: Network, id: string)
    ensures ContentOf(net, id).Some? <==>
            exists k :: 0 <= k < |CandidateUrls(id)| && HasText(Fetched(net, CandidateUrls(id)[k]))
    ensures ContentOf(net, id).Some? ==> ContentOf(net, id).value != ""
  {
    FirstHitSpec(net, CandidateUrls(id));
  }

  /** None of `urls` yields text. */
  ghost predicate Misses(net: Network, urls: seq<string>) {
    forall k :: 0 <= k < |urls| ==> !HasText(Fetched(net, urls[k]))
  }

  lemma MissesAppend(net: Network, a: seq<string>, b: seq<string>)
    requires Misses(net, a) && Misses(net, b)
    ensures Misses(net, a + b)
  {
    forall k | 0 <= k < |a + b| ensures !HasText(Fetched(net, (a + b)[k])) {
      if k >= |a| { assert (a + b)[k] == b[k - |a|]; }
    }
  }

  lemma {:induction false} VersionUrlsPrefix(id: string, version: string, exts: seq<string>, n: nat)
    requires n <= |exts|
    ensures VersionUrls(id, version, exts[..n]) <= VersionUrls(id, version, exts)
    decreases |exts|
  {
    if n < |exts| {
      var front := exts[..|exts| - 1];
      VersionUrlsPrefix(id, version, front, n);
      assert front[..n] == exts[..n];
    } else {
      assert exts[..n] == exts;
    }
  }

  lemma {:induction false} VersionedUrlsPrefix(id: string, i: nat, n: nat)
    requires i <= n <= Versions
    ensures VersionedUrls(id, i) <= VersionedUrls(id, n)
    decreases n
  {
    if i < n {
      VersionedUrlsPrefix(id, i, n - 1);
    }
  }

  /** What has been probed when the search is inside extension `e` of version `i` (`i == 10`: no version). */
  function ProbedThrough(id: string, i: nat, e: nat): seq<string>
    requires i <= Versions && e <= |Extensions|
  {
    VersionedUrls(id, i) + VersionUrls(id, if i < Versions then VersionTag(i) else "", Extensions[..e])
  }

  lemma ProbedThroughStep(id: string, i: nat, e: nat)
    requires i <= Versions && e < |Extensions|
    ensures ProbedThrough(id, i, e + 1) ==
            ProbedThrough(id, i, e) + ExtensionUrls(id, if i < Versions then VersionTag(i) else "", Extensions[e])
  {
    var v := if i < Versions then VersionTag(i) else "";
    assert Extensions[..e + 1] == Extensions[..e] + [Extensions[e]];
    VersionUrlsSnoc(id, v, Extensions[..e], Extensions[e]);
  }

  lemma ProbedThroughPrefix(id: string, i: nat, e: nat)
    requires i <= Versions && e <= |Extensions|
    ensures ProbedThrough(id, i, e) <= CandidateUrls(id)
  {
    var v := if i < Versions then VersionTag(i) else "";
    var p := VersionedUrls(id, i);
    var q := VersionUrls(id, v, Extensions[..e]);
    var full := VersionUrls(id, v, Extensions);
    VersionUrlsPrefix(id, v, Extensions, e);
    assert p + q <= p + full;
    if i < Versions {
      assert p + full == VersionedUrls(id, i + 1);
      VersionedUrlsPrefix(id, i + 1, Versions);
      assert VersionedUrls(id, Versions) <= CandidateUrls(id);
    } else {
      assert p + full == CandidateUrls(id);
    }
  }

  /** A hit at the end of what has been probed is the search's answer. */
  lemma HitAt(net: Network, id: string, i: nat, e: nat, probed: seq<string>)
    requires i <= Versions && e <= |Extensions|
    requires probed <= ProbedThrough(id, i, e) && probed != []
    requires Misses(net, probed[..|probed| - 1])
    requires HasText(Fetched(net, probed[|probed| - 1]))
    ensures probed <= CandidateUrls(id)
    ensures FirstHit(net, CandidateUrls(id)) == Search(Fetched(net, probed[|probed| - 1]), |probed|)
  {
    ProbedThroughPrefix(id, i, e);
    var c := CandidateUrls(id);
    assert probed <= c;
    forall k | 0 <= k < |probed| - 1 ensures !HasText(Fetched(net, c[k])) {
      assert c[k] == probed[..|probed| - 1][k];
    }
    MissesThenHit(net, c, |probed| - 1);
  }

  /** The nested version/extension loops of `get_book_data`, with their early returns. */
  method GetBookData(net: Network, id: string) returns (text: Option<string>, probed: seq<string>)
    ensures probed <= CandidateUrls(id)
    ensures FirstHit(net, CandidateUrls(id)) == Search(text, |probed|)
  {
    probed := [];
    for i := 0 to Versions
      invariant probed == VersionedUrls(id, i)
      invariant Misses(net, probed)
    {
      text, probed := ProbeVersion(net, id, i, probed);
      if HasText(text) {
        return;
      }
      assert Extensions[..|Extensions|] == Extensions;
    }
    text, probed := ProbeVersion(net, id, Versions, probed);
    if HasText(text) {
      return;
    }
    assert Extensions[..|Extensions|] == Extensions;
    AllMisses(net, CandidateUrls(id));
    text := None;
  }

  /** The inner loop over the extensions of version `i` (`i == 10`: the files without a version). */
  method ProbeVersion(net: Network, id: string, i: nat, before: seq<string>)
    returns (text: Option<string>, probed: seq<string>)
    requires i <= Versions
    requires before == VersionedUrls(id, i) && Misses(net, before)
    ensures HasText(text) ==> probed <= CandidateUrls(id) && FirstHit(net, CandidateUrls(id)) == Search(text, |probed|)
    ensures !HasText(text) ==> probed == ProbedThrough(id, i, |Extensions|) && Misses(net, probed)
  {
    var version := if i < Versions then VersionTag(i) else "";
    probed := before;
    text := None;
    assert Extensions[..0] == [];
    for e := 0 to |Extensions|
      invariant probed == ProbedThrough(id, i, e)
      invariant Misses(net, probed)
      invariant !HasText(text)
    {
      ghost var prior := probed;
      text, probed := ProbeExtension(net, id, version, Extensions[e], probed);
      ProbedThroughStep(id, i, e);
      if HasText(text) {
        MissesBeforeLast(net, prior, probed);
        HitAt(net, id, i, e + 1, probed);
        return;
      }
      MissesAppend(net, prior, probed[|prior|..]);
      assert prior + probed[|prior|..] == probed;
    }
  }

  lemma MissesBeforeLast(net: Network, prior: seq<string>, probed: seq<string>)
    requires |prior| < |probed| && prior <= probed
    requires Misses(net, prior) && Misses(net, probed[|prior|..|probed| - 1])
    ensures Misses(net, probed[..|probed| - 1])
  {
    MissesAppend(net, prior, probed[|prior|..|probed| - 1]);
    assert prior + probed[|prior|..|probed| - 1] == probed[..|probed| - 1];
  }

  /**
   * The body of the inner loop for one extension: the "no images" variant first (for EPUB and
   * HTML), then the plain file; it stops at the first fetch with text.
   */
  method ProbeExtension(net: Network, id: string, version: string, ext: string, before: seq<string>)
    returns (text: Option<string>, probed: seq<string>)
    ensures |before| < |probed| && probed <= before + ExtensionUrls(id, version, ext)
    ensures Misses(net, probed[|before|..|probed| - 1])
    ensures text == Fetched(net, probed[|probed| - 1])
    ensures !HasText(text) ==> probed == before + ExtensionUrls(id, version, ext) && Misses(net, probed[|before|..])
  {
    var url := FileUrl(id, version, ext);
    var sleeps, attempts;
    if HasNoImagesVariant(ext) {
      var urlNoImages := url + ".noimages";
      text, sleeps, attempts := FetchText(net, urlNoImages);
      probed := before + [urlNoImages];
      if HasText(text) {
        return;
      }
      assert probed[|before|..] == [urlNoImages];
    } else {
      probed := before;
    }
    text, sleeps, attempts := FetchText(net, url);
    probed := probed + [url];
  }
}
