/**
 * The loaded-page count shown in the top bar: how many of the discovered pages have
 * loaded, either in the overlay or in the host page's own list.
 */
module Progress {
  import opened Common

  /** The number of entries of `pages` that lie in `loaded`, counted front to back. */
  function LoadedCount(pages: seq<string>, loaded: set<string>): (n: nat)
    ensures n <= |pages|
    decreases |pages|
  {
    if pages == [] then 0
    else LoadedCount(pages[..|pages| - 1], loaded) + (if pages[|pages| - 1] in loaded then 1 else 0)
  }

  /** The loaded pages among `pages`, as a set. */
  ghost function LoadedSet(pages: seq<string>, loaded: set<string>): set<string> {
    set u | u in pages && u in loaded
  }

  /** Over a duplicate-free page list the count is the number of distinct loaded pages. */
  lemma {:induction false} LoadedCountIsCardinality(pages: seq<string>, loaded: set<string>)
    requires Distinct(pages)
    ensures LoadedCount(pages, loaded) == |LoadedSet(pages, loaded)|
    decreases |pages|
  {
    if pages != [] {
      var pre, last := pages[..|pages| - 1], pages[|pages| - 1];
      LoadedCountIsCardinality(pre, loaded);
      assert pages == pre + [last];
      assert last !in pre;
      if last in loaded {
        assert LoadedSet(pages, loaded) == LoadedSet(pre, loaded) + {last};
      } else {
        assert LoadedSet(pages, loaded) == LoadedSet(pre, loaded);
      }
    }
  }

  /** More loaded pages never lower the count. */
  lemma {:induction false} LoadedCountMonotone(pages: seq<string>, a: set<string>, b: set<string>)
    requires a <= b
    ensures LoadedCount(pages, a) <= LoadedCount(pages, b)
    decreases |pages|
  {
    if pages != [] {
      LoadedCountMonotone(pages[..|pages| - 1], a, b);
    }
  }

  /** The count reaches the number of pages exactly when every page has loaded. */
  lemma {:induction false} LoadedCountFull(pages: seq<string>, loaded: set<string>)
    ensures LoadedCount(pages, loaded) == |pages| <==> forall k | 0 <= k < |pages| :: pages[k] in loaded
    decreases |pages|
  {
    if pages != [] {
      var pre := pages[..|pages| - 1];
      LoadedCountFull(pre, loaded);
      assert forall k | 0 <= k < |pre| :: pre[k] == pages[k];
    }
  }
}
