/**
 * Page-URL acceptance: which strings the reader accepts as page identifiers,
 * and which attribute of an image element it takes the identifier from.
 */
module PageUrl {
  import opened Common

  /** `sub` occurs in `s` starting at position `i`. */
  predicate OccursAt(s: string, sub: string, i: int) {
    0 <= i && i + |sub| <= |s| && s[i..i + |sub|] == sub
  }

  /** JavaScript's `s.includes(sub)`. */
  predicate Contains(s: string, sub: string) {
    exists i | 0 <= i <= |s| - |sub| :: OccursAt(s, sub, i)
  }

  predicate StartsWith(s: string, prefix: string) {
    |prefix| <= |s| && s[..|prefix|] == prefix
  }

  predicate EndsWith(s: string, suffix: string) {
    |suffix| <= |s| && s[|s| - |suffix|..] == suffix
  }

  /** The characters that `.` in a JavaScript regular expression (without the `s` flag) does not match. */
  const LineTerminators: set<char> := {'\n', '\r', '\U{2028}', '\U{2029}'}

  predicate SingleLine(s: string) {
    forall k | 0 <= k < |s| :: s[k] !in LineTerminators
  }

  predicate EndsWithImageExtension(s: string) {
    EndsWith(s, "png") || EndsWith(s, "webp") || EndsWith(s, "jpg") || EndsWith(s, "jpeg")
  }

  /**
   * The placeholder pattern `/loading(.|_)…(png|webp|jpg|jpeg)` matched from position `i`
   * to the end of the string: "/loading", then '.' or '_', then a single-line tail that
   * ends in one of the four image extensions.
   */
  predicate LoadingPatternAt(url: string, i: int) {
    OccursAt(url, "/loading", i) && i + 9 <= |url| && url[i + 8] in {'.', '_'}
    && SingleLine(url[i + 9..]) && EndsWithImageExtension(url[i + 9..])
  }

  /** isLoadingUrl: the empty URL, the placeholder pattern, or any URL mentioning "loading.png". */
  predicate IsLoadingUrl(url: string) {
    url == ""
    || (exists i | 0 <= i <= |url| :: LoadingPatternAt(url, i))
    || Contains(url, "loading.png")
  }

  /** isValidPageUrl: an http(s) URL, not a placeholder, on one of the content hosts. */
  predicate IsValidPageUrl(url: string) {
    && (StartsWith(url, "http://") || StartsWith(url, "https://"))
    && !IsLoadingUrl(url)
    && (|| Contains(url, "sl.mangafunb.fun/")
        || Contains(url, "hi77-overseas.mangafunb.fun/")
        || Contains(url, "mangafunb.fun/"))
  }

  /** A substring of a substring is a substring. */
  lemma ContainsTransitive(s: string, mid: string, sub: string, k: nat)
    requires Contains(s, mid)
    requires OccursAt(mid, sub, k)
    ensures Contains(s, sub)
  {
    var i :| 0 <= i <= |s| - |mid| && OccursAt(s, mid, i);
    forall t | 0 <= t < |sub|
      ensures s[i + k + t] == sub[t]
    {
      assert s[i + k + t] == s[i..i + |mid|][k + t];
      assert sub[t] == mid[k..k + |sub|][t];
    }
    assert s[i + k..i + k + |sub|] == sub;
    assert OccursAt(s, sub, i + k);
  }

  /**
   * The three allowlist entries collapse to the last one: a URL is valid exactly
   * when it has an http(s) scheme, is not a placeholder, and contains "mangafunb.fun/".
   */
  lemma ValidUrlCollapsesAllowlist(url: string)
    ensures IsValidPageUrl(url) <==>
      && (StartsWith(url, "http://") || StartsWith(url, "https://"))
      && !IsLoadingUrl(url)
      && Contains(url, "mangafunb.fun/")
  {
    if Contains(url, "sl.mangafunb.fun/") {
      assert OccursAt("sl.mangafunb.fun/", "mangafunb.fun/", 3);
      ContainsTransitive(url, "sl.mangafunb.fun/", "mangafunb.fun/", 3);
    }
    if Contains(url, "hi77-overseas.mangafunb.fun/") {
      assert OccursAt("hi77-overseas.mangafunb.fun/", "mangafunb.fun/", 14);
      ContainsTransitive(url, "hi77-overseas.mangafunb.fun/", "mangafunb.fun/", 14);
    }
  }

  /** The empty string is always a loading URL and never a valid page URL. */
  lemma EmptyUrlRejected()
    ensures IsLoadingUrl("") && !IsValidPageUrl("")
  {
  }

  /** A valid page URL is non-empty and not a placeholder. */
  lemma ValidUrlNonEmpty(url: string)
    requires IsValidPageUrl(url)
    ensures url != "" && !IsLoadingUrl(url)
  {
  }

  /** Any URL that mentions "loading.png" is rejected, whatever its host. */
  lemma LoadingPngRejected(url: string)
    requires Contains(url, "loading.png")
    ensures IsLoadingUrl(url) && !IsValidPageUrl(url)
  {
  }

  /**
   * An image element as the reader sees it: the `data-src` attribute, `dataset.src`,
   * the resolved `currentSrc`, the `src` attribute and the `src` property.
   * Attributes may be absent; the two properties are always strings ("" when unset).
   * In a browser `dataset.src` reflects the `data-src` attribute, so the two fields hold
   * the same value; keeping both separately admits more elements than a browser builds,
   * and every property proved here holds of those as well.
   */
  datatype Image = Image(
    dataSrcAttr: Option<string>,
    datasetSrc: Option<string>,
    currentSrc: string,
    srcAttr: Option<string>,
    src: string)

  /** An absent attribute reads as "" under `||`. */
  function Text(o: Option<string>): string {
    if o.Some? then o.value else ""
  }

  /** JavaScript's `a || b` on strings. */
  function Or(a: string, b: string): string {
    if a != "" then a else b
  }

  /** The sources extractUrl consults, highest priority first. */
  function Candidates(img: Image): seq<string> {
    [Text(img.dataSrcAttr), Text(img.datasetSrc), img.currentSrc, Text(img.srcAttr), img.src]
  }

  /** `url` is the first non-empty entry of `cs`, or "" when every entry is empty. */
  ghost predicate FirstNonEmpty(cs: seq<string>, url: string) {
    if url == "" then forall k | 0 <= k < |cs| :: cs[k] == ""
    else exists k | 0 <= k < |cs| :: cs[k] == url && forall j | 0 <= j < k :: cs[j] == ""
  }

  /**
   * extractUrl: the deferred source (`data-src`) wins over the active source
   * (`currentSrc`, then the `src` attribute, then the `src` property).
   */
  function ExtractUrl(img: Image): (url: string)
    ensures Text(img.dataSrcAttr) != "" ==> url == img.dataSrcAttr.value
    ensures url == "" <==> Candidates(img) == ["", "", "", "", ""]
  {
    var ds := Or(Text(img.dataSrcAttr), Text(img.datasetSrc));
    var src := Or(Or(img.currentSrc, Text(img.srcAttr)), img.src);
    Or(Or(ds, src), "")
  }

  /** extractUrl returns the highest-priority non-empty source, or "" when there is none. */
  lemma ExtractUrlPicksFirstNonEmpty(img: Image)
    ensures FirstNonEmpty(Candidates(img), ExtractUrl(img))
  {
    var cs, url := Candidates(img), ExtractUrl(img);
    if url != "" {
      var k := if cs[0] != "" then 0 else if cs[1] != "" then 1 else if cs[2] != "" then 2
               else if cs[3] != "" then 3 else 4;
      assert cs[k] == url && forall j | 0 <= j < k :: cs[j] == "";
    }
  }
}
