/**
 * The autocomplete name list: titles fetched page by page from the wiki's
 * category listing, cleaned (`normalizeTitle`), filtered against a block
 * list, de-duplicated and sorted (`uniqueSorted`).
 *
 * The order `localeCompare` defines is a parameter `leq`, assumed to be a
 * total order on strings. The wiki request is a parameter `fetch` mapping
 * (category, continuation token) to the decoded response, or to `None` when
 * the request or the JSON decoding throws.
 */
module CharacterList {
  import opened Wrappers
  import opened Text

  // ---------------------------------------------------------------------
  // normalizeTitle
  // ---------------------------------------------------------------------

  const CategoryPrefix: string := "Category:"
  const StorylineSuffix: string := "/Storyline"

  /** Drops a leading "Category:" and a trailing "/Storyline" (ignoring case), then trims. */
  function NormalizeTitle(title: string): (r: string)
    ensures Trimmed(r)
    ensures |r| <= |title|
  {
    var stripped := StripSuffixCI(StripPrefixCI(title, CategoryPrefix), StorylineSuffix);
    TrimIsTrimmed(stripped);
    Trim(stripped)
  }

  /** The cleaned title is a piece of the original title. */
  lemma NormalizeTitleOccurs(title: string)
    ensures exists k :: OccursAt(title, NormalizeTitle(title), k)
  {
    var noPrefix := StripPrefixCI(title, CategoryPrefix);
    var noSuffix := StripSuffixCI(noPrefix, StorylineSuffix);
    var r := Trim(noSuffix);
    StripPrefixOccurs(title, CategoryPrefix);
    StripSuffixOccurs(noPrefix, StorylineSuffix);
    var j := TrimShape(noSuffix);
    OccursTrans(noSuffix, noPrefix, title, 0, |title| - |noPrefix|);
    OccursTrans(r, noSuffix, title, j, |title| - |noPrefix|);
    assert OccursAt(title, NormalizeTitle(title), j + |title| - |noPrefix|);
  }

  /** A category page title of the form "Category:<name>/Storyline" cleans to <name>. */
  lemma NormalizeWrapped(name: string)
    requires Trimmed(name)
    ensures NormalizeTitle(CategoryPrefix + name + StorylineSuffix) == name
  {
    var t := CategoryPrefix + name + StorylineSuffix;
    assert t[..|CategoryPrefix|] == CategoryPrefix;
    assert HasPrefixCI(t, CategoryPrefix);
    var noPrefix := StripPrefixCI(t, CategoryPrefix);
    assert noPrefix == name + StorylineSuffix;
    assert noPrefix[|noPrefix| - |StorylineSuffix|..] == StorylineSuffix;
    assert StripSuffixCI(noPrefix, StorylineSuffix) == name;
    TrimFixpoint(name);
  }

  /** A clean name (trimmed, no prefix, no suffix) is left as it is. */
  lemma NormalizeClean(name: string)
    requires Trimmed(name)
    requires !HasPrefixCI(name, CategoryPrefix) && !HasSuffixCI(name, StorylineSuffix)
    ensures NormalizeTitle(name) == name
  {
    TrimFixpoint(name);
  }

  // ---------------------------------------------------------------------
  // uniqueSorted
  // ---------------------------------------------------------------------

  ghost predicate TotalOrder(leq: (string, string) -> bool) {
    && (forall a, b :: leq(a, b) || leq(b, a))
    && (forall a, b :: leq(a, b) && leq(b, a) ==> a == b)
    && (forall a, b, c :: leq(a, b) && leq(b, c) ==> leq(a, c))
  }

  predicate NoDup<T(==)>(s: seq<T>) {
    forall i, j :: 0 <= i < j < |s| ==> s[i] != s[j]
  }

  predicate Sorted(s: seq<string>, leq: (string, string) -> bool) {
    forall i, j :: 0 <= i < j < |s| ==> leq(s[i], s[j])
  }

  /** `[...new Set(s)]`: the first occurrence of every element, in order. */
  function Dedup(s: seq<string>): (r: seq<string>)
    ensures NoDup(r)
    ensures forall x :: x in r <==> x in s
    ensures |r| <= |s|
  {
    if s == [] then []
    else
      var rest := Dedup(s[..|s| - 1]);
      assert s == s[..|s| - 1] + [s[|s| - 1]];
      if s[|s| - 1] in rest then rest else rest + [s[|s| - 1]]
  }

  /** Puts `x` into the sorted `s` before the first element it is below. */
  function Insert(x: string, s: seq<string>, leq: (string, string) -> bool): (r: seq<string>)
    requires TotalOrder(leq)
    requires Sorted(s, leq)
    ensures Sorted(r, leq)
    ensures multiset(r) == multiset(s) + multiset{x}
  {
    if s == [] then [x]
    else if leq(x, s[0]) then [x] + s
    else
      var rest := Insert(x, s[1..], leq);
      assert s == [s[0]] + s[1..];
      InsertLowerBound(x, s[0], s[1..], rest, leq);
      [s[0]] + rest
  }

  /** A lower bound of `x` and of the sorted `s` stays a lower bound of their merge. */
  lemma InsertLowerBound(x: string, lo: string, s: seq<string>, rest: seq<string>, leq: (string, string) -> bool)
    requires TotalOrder(leq)
    requires Sorted([lo] + s, leq) && !leq(x, lo)
    requires Sorted(rest, leq) && multiset(rest) == multiset(s) + multiset{x}
    ensures Sorted([lo] + rest, leq)
  {
    var r := [lo] + rest;
    forall j | 0 < j < |r| ensures leq(lo, r[j]) {
      assert r[j] == rest[j - 1];
      assert r[j] in multiset(rest);
      if r[j] == x {
        assert leq(x, lo) || leq(lo, x);
      } else {
        assert r[j] in multiset(s);
        var k :| 0 <= k < |s| && s[k] == r[j];
        assert ([lo] + s)[0] == lo && ([lo] + s)[k + 1] == r[j];
      }
    }
    forall i, j | 0 <= i < j < |r| ensures leq(r[i], r[j]) {
      if i > 0 {
        assert r[i] == rest[i - 1] && r[j] == rest[j - 1];
      }
    }
  }

  /** `sort` with the comparator `leq`: sorted, and a permutation of its input. */
  function Sort(s: seq<string>, leq: (string, string) -> bool): (r: seq<string>)
    requires TotalOrder(leq)
    ensures Sorted(r, leq)
    ensures multiset(r) == multiset(s)
  {
    if s == [] then []
    else
      assert s == s[..|s| - 1] + [s[|s| - 1]];
      Insert(s[|s| - 1], Sort(s[..|s| - 1], leq), leq)
  }

  /** A permutation of a duplicate-free sequence is duplicate-free. */
  lemma {:induction false} PermutationKeepsNoDup(a: seq<string>, b: seq<string>)
    requires multiset(a) == multiset(b) && NoDup(a)
    ensures NoDup(b)
  {
    forall i, j | 0 <= i < j < |b| ensures b[i] != b[j] {
      if b[i] == b[j] {
        var x := b[i];
        assert b == b[..j] + [b[j]] + b[j + 1..];
        assert x in b[..j];
        assert multiset(b)[x] >= 2;
        DistinctCountsOne(a, x);
        assert false;
      }
    }
  }

  lemma {:induction false} DistinctCountsOne(a: seq<string>, x: string)
    requires NoDup(a)
    ensures multiset(a)[x] <= 1
  {
    if a != [] {
      var last := a[|a| - 1];
      assert a == a[..|a| - 1] + [last];
      DistinctCountsOne(a[..|a| - 1], x);
      if x == last {
        assert x !in a[..|a| - 1];
      }
    }
  }

  /** `uniqueSorted`: duplicate-free, sorted, and holding exactly the elements of `list`. */
  function UniqueSorted(list: seq<string>, leq: (string, string) -> bool): (r: seq<string>)
    requires TotalOrder(leq)
    ensures Sorted(r, leq) && NoDup(r)
    ensures forall x :: x in r <==> x in list
  {
    var d := Dedup(list);
    var r := Sort(d, leq);
    PermutationKeepsNoDup(d, r);
    assert forall x :: x in r <==> x in multiset(d);
    r
  }

  /** Two duplicate-free sorted sequences with the same elements are equal. */
  lemma {:induction false} SortedSetsEqual(a: seq<string>, b: seq<string>, leq: (string, string) -> bool)
    requires TotalOrder(leq)
    requires Sorted(a, leq) && NoDup(a) && Sorted(b, leq) && NoDup(b)
    requires forall x :: x in a <==> x in b
    ensures a == b
    decreases |a|
  {
    if a != [] {
      assert a[0] in b;
    }
    if b != [] {
      assert b[0] in a;
    }
    if a != [] && b != [] {
      assert leq(a[0], b[0]) by {
        var j :| 0 <= j < |a| && a[j] == b[0];
        assert j == 0 || leq(a[0], a[j]);
      }
      assert leq(b[0], a[0]) by {
        var j :| 0 <= j < |b| && b[j] == a[0];
        assert j == 0 || leq(b[0], b[j]);
      }
      assert a[0] == b[0];
      forall x ensures x in a[1..] <==> x in b[1..] {
        if x in a[1..] {
          assert x != a[0];
          assert x in b && x != b[0];
          var j :| 0 <= j < |b| && b[j] == x;
          assert b[1..][j - 1] == x;
        }
        if x in b[1..] {
          assert x != b[0];
          assert x in a && x != a[0];
          var j :| 0 <= j < |a| && a[j] == x;
          assert a[1..][j - 1] == x;
        }
      }
      SortedSetsEqual(a[1..], b[1..], leq);
      assert a == [a[0]] + a[1..];
      assert b == [b[0]] + b[1..];
    }
  }

  /** The result depends only on which names occur, not on their order or repetition. */
  lemma UniqueSortedSetDetermined(l1: seq<string>, l2: seq<string>, leq: (string, string) -> bool)
    requires TotalOrder(leq)
    requires forall x :: x in l1 <==> x in l2
    ensures UniqueSorted(l1, leq) == UniqueSorted(l2, leq)
  {
    SortedSetsEqual(UniqueSorted(l1, leq), UniqueSorted(l2, leq), leq);
  }

  lemma UniqueSortedIdempotent(list: seq<string>, leq: (string, string) -> bool)
    requires TotalOrder(leq)
    ensures UniqueSorted(UniqueSorted(list, leq), leq) == UniqueSorted(list, leq)
  {
    var once := UniqueSorted(list, leq);
    SortedSetsEqual(UniqueSorted(once, leq), once, leq);
  }

  // ---------------------------------------------------------------------
  // The block-list filter of buildCharacterNameList
  // ---------------------------------------------------------------------

  const Blocked: set<string> := {"Character", "Characters", "Playable Characters", "NPCs"}

  /** `n && !blocked.has(n) && !n.includes("List")`. */
  predicate KeepName(n: string) {
    n != "" && n !in Blocked && !Contains(n, "List")
  }

  /** The block-list filter with "includes" written out as "occurs at no position". */
  lemma KeepNameIff(n: string)
    ensures KeepName(n) <==> n != "" && n !in Blocked && forall k :: !OccursAt(n, "List", k)
  {
    ContainsIffOccurs(n, "List");
  }

  function NormalizeAll(titles: seq<string>): (r: seq<string>)
    ensures |r| == |titles|
    ensures forall i :: 0 <= i < |titles| ==> r[i] == NormalizeTitle(titles[i])
  {
    if titles == [] then [] else [NormalizeTitle(titles[0])] + NormalizeAll(titles[1..])
  }

  function KeepNames(names: seq<string>): (r: seq<string>)
    ensures forall n :: n in r <==> n in names && KeepName(n)
  {
    if names == [] then []
    else
      var rest := KeepNames(names[1..]);
      assert names == [names[0]] + names[1..];
      if KeepName(names[0]) then [names[0]] + rest else rest
  }

  /** A name is among the cleaned titles iff some title cleans to it. */
  lemma NormalizeAllMembers(titles: seq<string>, n: string)
    ensures n in NormalizeAll(titles) <==> exists t :: t in titles && NormalizeTitle(t) == n
  {
    var combined := NormalizeAll(titles);
    if n in combined {
      var i :| 0 <= i < |combined| && combined[i] == n;
      assert titles[i] in titles;
    }
    if t :| t in titles && NormalizeTitle(t) == n {
      var i :| 0 <= i < |titles| && titles[i] == t;
      assert combined[i] == n;
    }
  }

  /**
   * The list built from the titles of both categories: unique, sorted, free of
   * blocked or "List" entries, and holding exactly the kept cleaned titles.
   */
  function CharacterNames(playable: seq<string>, others: seq<string>, leq: (string, string) -> bool): (r: seq<string>)
    requires TotalOrder(leq)
    ensures Sorted(r, leq) && NoDup(r)
    ensures forall n :: n in r ==> KeepName(n) && Trimmed(n)
    ensures forall n :: n in r <==> KeepName(n) && exists t :: t in playable + others && NormalizeTitle(t) == n
  {
    var combined := NormalizeAll(playable + others);
    forall n ensures n in combined <==> exists t :: t in playable + others && NormalizeTitle(t) == n {
      NormalizeAllMembers(playable + others, n);
    }
    UniqueSorted(KeepNames(combined), leq)
  }

  // ---------------------------------------------------------------------
  // fetchCategoryMembers: the pagination loop
  // ---------------------------------------------------------------------

  const MaxRequests: nat := 50
  const DefaultMax: nat := 5000

  /**
   * One decoded response: the member titles in the order listed ("" for a
   * member without a title, or none at all when `query` is missing) and the
   * continuation token ("" when `continue.cmcontinue` is missing or empty).
   */
  datatype Page = Page(titles: seq<string>, cont: string)

  /** The titles that are present, in order. */
  function Present(titles: seq<string>): (r: seq<string>)
    ensures forall t :: t in r <==> t in titles && t != ""
    ensures |r| <= |titles|
  {
    if titles == [] then []
    else
      var last := titles[|titles| - 1];
      assert titles == titles[..|titles| - 1] + [last];
      Present(titles[..|titles| - 1]) + (if last != "" then [last] else [])
  }

  /** The titles of `pages`, page after page. */
  function Flatten(pages: seq<Page>): seq<string> {
    if pages == [] then [] else Flatten(pages[..|pages| - 1]) + Present(pages[|pages| - 1].titles)
  }

  /** The continuation token sent with the request after `pages` were received. */
  function TokenAfter(pages: seq<Page>): string {
    if pages == [] then "" else pages[|pages| - 1].cont
  }

  /**
   * Request `i` returned `pages[i]`; it carried the token of the previous
   * response, and it was issued because fewer than `max` titles had been
   * collected and (after the first) the previous response had a token.
   */
  ghost predicate IssuedAt(fetch: (string, string) -> Option<Page>, category: string,
                           pages: seq<Page>, max: nat, i: nat)
    requires i < |pages|
  {
    var before := pages[..i];
    && fetch(category, TokenAfter(before)) == Some(pages[i])
    && |Flatten(before)| < max
    && (i > 0 ==> TokenAfter(before) != "")
  }

  /** `pages` is the sequence of responses the loop received, in order. */
  ghost predicate Followed(fetch: (string, string) -> Option<Page>, category: string,
                           pages: seq<Page>, max: nat) {
    forall i: nat :: i < |pages| ==> IssuedAt(fetch, category, pages, max, i)
  }

  /** The loop ended normally after `pages`: 50 requests, `max` titles, or no further token. */
  predicate Completed(pages: seq<Page>, max: nat) {
    |pages| == MaxRequests || |Flatten(pages)| >= max || (pages != [] && TokenAfter(pages) == "")
  }

  /** After `pages`, the loop issued one more request and that request threw. */
  ghost predicate Threw(fetch: (string, string) -> Option<Page>, category: string, pages: seq<Page>, max: nat) {
    && !Completed(pages, max)
    && fetch(category, TokenAfter(pages)) == None
  }

  lemma FollowedExtend(fetch: (string, string) -> Option<Page>, category: string,
                       pages: seq<Page>, page: Page, max: nat)
    requires Followed(fetch, category, pages, max)
    requires fetch(category, TokenAfter(pages)) == Some(page)
    requires |Flatten(pages)| < max
    requires pages != [] ==> TokenAfter(pages) != ""
    ensures Followed(fetch, category, pages + [page], max)
  {
    var next := pages + [page];
    forall i: nat | i < |next| ensures IssuedAt(fetch, category, next, max, i) {
      assert next[..i] == if i == |pages| then pages else pages[..i];
      if i < |pages| {
        assert IssuedAt(fetch, category, pages, max, i);
      }
    }
  }

  /** The inner loop over one response: its non-empty titles appended in order. */
  method AppendPresent(results: seq<string>, titles: seq<string>) returns (r: seq<string>)
    ensures r == results + Present(titles)
  {
    r := results;
    var j := 0;
    while j < |titles|
      invariant 0 <= j <= |titles|
      invariant r == results + Present(titles[..j])
    {
      assert titles[..j + 1] == titles[..j] + [titles[j]];
      if titles[j] != "" {
        r := r + [titles[j]];
      }
      j := j + 1;
    }
    assert titles[..j] == titles;
  }

  /**
   * `fetchCategoryMembers`. On success: the titles of the pages received, in
   * order, where the loop stopped because `max` was reached, 50 requests were
   * made, or the last response had no token. On failure (`None`): the next
   * request threw, after the pages received so far.
   */
  method FetchCategoryMembers(fetch: (string, string) -> Option<Page>, category: string, max: nat)
    returns (r: Option<seq<string>>, ghost pages: seq<Page>)
    ensures |pages| <= MaxRequests
    ensures Followed(fetch, category, pages, max)
    ensures r.Some? ==> r.value == Flatten(pages) && Completed(pages, max)
    ensures r.None? ==> Threw(fetch, category, pages, max)
  {
    var cmcontinue := "";
    var results: seq<string> := [];
    var safety := 0;
    pages := [];
    while |results| < max
      invariant safety == |pages| <= MaxRequests
      invariant results == Flatten(pages)
      invariant cmcontinue == TokenAfter(pages)
      invariant pages != [] ==> cmcontinue != ""
      invariant Followed(fetch, category, pages, max)
      decreases MaxRequests - safety
    {
      safety := safety + 1;
      if safety > MaxRequests {
        break;
      }
      var response := fetch(category, cmcontinue);
      if response.None? {
        return None, pages;
      }
      var page := response.value;
      results := AppendPresent(results, page.titles);
      FollowedExtend(fetch, category, pages, page, max);
      assert Flatten(pages + [page]) == Flatten(pages) + Present(page.titles) by {
        assert (pages + [page])[..|pages|] == pages;
      }
      pages := pages + [page];
      cmcontinue := page.cont;
      if cmcontinue == "" {
        break;
      }
    }
    r := Some(results);
  }

  /**
   * `buildCharacterNameList`: both categories fetched in turn, then cleaned,
   * filtered, de-duplicated and sorted. Any failed request fails the whole build.
   */
  method BuildCharacterNameList(fetch: (string, string) -> Option<Page>, leq: (string, string) -> bool)
    returns (r: Option<seq<string>>, ghost playablePages: seq<Page>, ghost otherPages: seq<Page>)
    requires TotalOrder(leq)
    ensures Followed(fetch, "Category:Playable Characters", playablePages, DefaultMax)
    ensures Followed(fetch, "Category:Characters", otherPages, DefaultMax)
    ensures r.Some? <==> Completed(playablePages, DefaultMax) && Completed(otherPages, DefaultMax)
    ensures r.None? ==> Threw(fetch, "Category:Playable Characters", playablePages, DefaultMax)
                        || (Completed(playablePages, DefaultMax) && Threw(fetch, "Category:Characters", otherPages, DefaultMax))
    ensures r.Some? ==> r.value == CharacterNames(Flatten(playablePages), Flatten(otherPages), leq)
    ensures r.Some? ==> Sorted(r.value, leq) && NoDup(r.value) && forall n :: n in r.value ==> KeepName(n)
  {
    otherPages := [];
    var playable;
    playable, playablePages := FetchCategoryMembers(fetch, "Category:Playable Characters", DefaultMax);
    if playable.None? {
      return None, playablePages, otherPages;
    }
    var others;
    others, otherPages := FetchCategoryMembers(fetch, "Category:Characters", DefaultMax);
    if others.None? {
      return None, playablePages, otherPages;
    }
    r := Some(CharacterNames(playable.value, others.value, leq));
  }
}
