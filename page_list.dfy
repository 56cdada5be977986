/**
 * The page-list scan of refreshPagesNow: image elements in document order become
 * the deduplicated page sequence and the URL-to-element lookup.
 */
module PageList {
  import opened Common
  import opened PageUrl

  /** The page URLs kept from `imgs`: valid extracted URLs, each at its first occurrence. */
  function Pages(imgs: seq<Image>): seq<string>
    decreases |imgs|
  {
    if imgs == [] then []
    else
      var before := Pages(imgs[..|imgs| - 1]);
      var url := ExtractUrl(imgs[|imgs| - 1]);
      if url == "" || !IsValidPageUrl(url) || url in before then before else before + [url]
  }

  /** The lookup from a kept URL to the element it was first extracted from. */
  function ImagesByUrl(imgs: seq<Image>): map<string, Image>
    decreases |imgs|
  {
    if imgs == [] then map[]
    else
      var pre := imgs[..|imgs| - 1];
      var url := ExtractUrl(imgs[|imgs| - 1]);
      if url == "" || !IsValidPageUrl(url) || url in Pages(pre) then ImagesByUrl(pre)
      else ImagesByUrl(pre)[url := imgs[|imgs| - 1]]
  }

  /** Some element of `imgs` yields URL `u`. */
  ghost predicate Occurs(imgs: seq<Image>, u: string) {
    exists i | 0 <= i < |imgs| :: ExtractUrl(imgs[i]) == u
  }

  /** The position of the first element yielding `u`, or |imgs| when none does. */
  function FirstIndex(imgs: seq<Image>, u: string): (r: nat)
    ensures r <= |imgs|
    ensures r < |imgs| ==> ExtractUrl(imgs[r]) == u
    ensures forall j | 0 <= j < r :: ExtractUrl(imgs[j]) != u
    decreases |imgs|
  {
    if imgs == [] then 0
    else if ExtractUrl(imgs[0]) == u then 0
    else
      var r := 1 + FirstIndex(imgs[1..], u);
      assert forall j | 1 <= j < r :: imgs[j] == imgs[1..][j - 1];
      r
  }

  /** Looking only at the first `n` elements finds the same first occurrence, if it lies among them. */
  lemma FirstIndexOfPrefix(imgs: seq<Image>, n: nat, u: string)
    requires n <= |imgs|
    ensures FirstIndex(imgs[..n], u) == if FirstIndex(imgs, u) < n then FirstIndex(imgs, u) else n
  {
    var r, r' := FirstIndex(imgs, u), FirstIndex(imgs[..n], u);
    if r < n {
      assert imgs[..n][r] == imgs[r];
    }
  }

  /** A URL occurs exactly when its first index lies inside the sequence. */
  lemma OccursIffFirstIndex(imgs: seq<Image>, u: string)
    ensures Occurs(imgs, u) <==> FirstIndex(imgs, u) < |imgs|
  {
  }

  /** An element list yields `u` when its shorter prefix does or its last element does. */
  lemma OccursAtLast(imgs: seq<Image>, u: string)
    requires imgs != []
    ensures Occurs(imgs, u) <==> Occurs(imgs[..|imgs| - 1], u) || ExtractUrl(imgs[|imgs| - 1]) == u
  {
    var n := |imgs| - 1;
    var pre := imgs[..n];
    if Occurs(pre, u) {
      var i :| 0 <= i < |pre| && ExtractUrl(pre[i]) == u;
      assert imgs[i] == pre[i];
    } else if ExtractUrl(imgs[n]) != u {
      forall i | 0 <= i < |imgs|
        ensures ExtractUrl(imgs[i]) != u
      {
        if i < n {
          assert imgs[i] == pre[i];
        }
      }
    }
  }

  /** After a scan the page list has no duplicates and holds only valid page URLs. */
  lemma {:induction false} PagesWellFormed(imgs: seq<Image>)
    ensures Distinct(Pages(imgs))
    ensures forall k | 0 <= k < |Pages(imgs)| :: IsValidPageUrl(Pages(imgs)[k])
    decreases |imgs|
  {
    if imgs != [] {
      PagesWellFormed(imgs[..|imgs| - 1]);
    }
  }

  /** Every valid URL some element yields is kept, and nothing else is. */
  lemma {:induction false} PagesAreTheValidUrls(imgs: seq<Image>, u: string)
    ensures u in Pages(imgs) <==> IsValidPageUrl(u) && Occurs(imgs, u)
    decreases |imgs|
  {
    if imgs != [] {
      PagesAreTheValidUrls(imgs[..|imgs| - 1], u);
      OccursAtLast(imgs, u);
    }
  }

  /** Every kept page occurs in the element list. */
  lemma PagesOccur(imgs: seq<Image>)
    ensures forall a | 0 <= a < |Pages(imgs)| :: FirstIndex(imgs, Pages(imgs)[a]) < |imgs|
  {
    forall a | 0 <= a < |Pages(imgs)|
      ensures FirstIndex(imgs, Pages(imgs)[a]) < |imgs|
    {
      PagesAreTheValidUrls(imgs, Pages(imgs)[a]);
      OccursIffFirstIndex(imgs, Pages(imgs)[a]);
    }
  }

  /** Pages come in the order of their first occurrence: a page listed earlier was first seen at an earlier element. */
  lemma {:induction false} PagesInFirstOccurrenceOrder(imgs: seq<Image>)
    ensures forall a, b | 0 <= a < b < |Pages(imgs)| ::
      FirstIndex(imgs, Pages(imgs)[a]) < FirstIndex(imgs, Pages(imgs)[b])
    decreases |imgs|
  {
    if imgs != [] {
      var n := |imgs| - 1;
      var pre := imgs[..n];
      PagesInFirstOccurrenceOrder(pre);
      PagesOccur(pre);
      var P, Q := Pages(pre), Pages(imgs);
      if Q != P {
        NewPageFirstAtLast(imgs);
      }
      forall a | 0 <= a < |Q|
        ensures FirstIndex(imgs, Q[a]) == if a < |P| then FirstIndex(pre, P[a]) else n
      {
        if a < |P| {
          assert Q[a] == P[a];
          FirstIndexOfPrefix(imgs, n, P[a]);
        }
      }
    }
  }

  /** When the last element adds a page, that element is where the page first occurs. */
  lemma NewPageFirstAtLast(imgs: seq<Image>)
    requires imgs != [] && Pages(imgs) != Pages(imgs[..|imgs| - 1])
    ensures Pages(imgs) == Pages(imgs[..|imgs| - 1]) + [ExtractUrl(imgs[|imgs| - 1])]
    ensures FirstIndex(imgs, ExtractUrl(imgs[|imgs| - 1])) == |imgs| - 1
  {
    var n := |imgs| - 1;
    var url := ExtractUrl(imgs[n]);
    PagesAreTheValidUrls(imgs[..n], url);
    OccursIffFirstIndex(imgs[..n], url);
    FirstIndexOfPrefix(imgs, n, url);
  }

  /** The lookup has exactly the kept pages as keys, each bound to its first element. */
  lemma {:induction false} ImagesByUrlIsFirstImage(imgs: seq<Image>)
    ensures forall u :: u in ImagesByUrl(imgs) <==> u in Pages(imgs)
    ensures forall u | u in ImagesByUrl(imgs) ::
      FirstIndex(imgs, u) < |imgs| && ImagesByUrl(imgs)[u] == imgs[FirstIndex(imgs, u)]
    decreases |imgs|
  {
    if imgs != [] {
      var n := |imgs| - 1;
      var pre := imgs[..n];
      ImagesByUrlIsFirstImage(pre);
      forall u | u in ImagesByUrl(imgs)
        ensures FirstIndex(imgs, u) < |imgs| && ImagesByUrl(imgs)[u] == imgs[FirstIndex(imgs, u)]
      {
        FirstIndexOfPrefix(imgs, n, u);
        if u in ImagesByUrl(pre) {
          assert pre[FirstIndex(pre, u)] == imgs[FirstIndex(pre, u)];
        } else {
          assert u == ExtractUrl(imgs[n]) && u !in Pages(pre);
          PagesAreTheValidUrls(pre, u);
          OccursIffFirstIndex(pre, u);
        }
      }
    }
  }

  /** Every element the lookup holds yields its own key. */
  lemma ImagesByUrlYieldKeys(imgs: seq<Image>)
    ensures forall u | u in ImagesByUrl(imgs) :: ExtractUrl(ImagesByUrl(imgs)[u]) == u
  {
    ImagesByUrlIsFirstImage(imgs);
  }

  /** One more element extends the page list by at most its own URL. */
  lemma PagesGrowByOne(imgs: seq<Image>)
    requires imgs != []
    ensures IsPrefix(Pages(imgs[..|imgs| - 1]), Pages(imgs))
  {
  }

  /**
   * Appending elements at the end of the list never disturbs the pages already found:
   * the old page list is a prefix of the new one.
   */
  lemma {:induction false} PagesGrowAtTail(imgs: seq<Image>, more: seq<Image>)
    ensures IsPrefix(Pages(imgs), Pages(imgs + more))
    decreases |more|
  {
    if more != [] {
      var all := imgs + more;
      var shorter := imgs + more[..|more| - 1];
      PagesGrowAtTail(imgs, more[..|more| - 1]);
      assert all[..|all| - 1] == shorter;
      PagesGrowByOne(all);
    } else {
      assert imgs + more == imgs;
    }
  }
}
