/**
 * The filter engine shared by both gallery scripts: which cards a category
 * key and a search query let through, when the "no results" indicator shows,
 * and which character names the autocomplete box offers.
 */
module Filter {
  import opened Text

  /** A gallery card: its `data-keywords`, its image source and its `.tag` text ("" when missing). */
  datatype Card = Card(keywords: string, src: string, tag: string)

  const AllKey: string := "all"

  /** The search box value as `applyFilters` and `showSuggestions` read it. */
  function Query(input: string): (q: string)
    ensures |q| <= |input|
  {
    Trim(Lower(input))
  }

  /**
   * The query is trimmed, and it is the lower-cased box value with only white
   * space cut from either end.
   */
  lemma QueryOccurs(input: string) returns (k: int)
    ensures Trimmed(Query(input))
    ensures OccursAt(Lower(input), Query(input), k)
    ensures AllSpace(input[..k]) && AllSpace(input[k + |Query(input)|..])
  {
    var lowered := Lower(input);
    var q := Trim(lowered);
    k := TrimShape(lowered);
    assert lowered[0..k] == lowered[..k];
    LowerSpaces(input, 0, k);
    assert input[0..k] == input[..k];
    assert lowered[k + |q|..|input|] == lowered[k + |q|..];
    LowerSpaces(input, k + |q|, |input|);
    assert input[k + |q|..|input|] == input[k + |q|..];
  }

  /** The query holds no upper-case ASCII letter: lower-casing it again changes nothing. */
  lemma QueryIsLower(input: string)
    ensures Lower(Query(input)) == Query(input)
  {
    var lowered := Lower(input);
    var q := Trim(lowered);
    var k := TrimShape(lowered);
    forall i | 0 <= i < |q| ensures Lower(q)[i] == q[i] {
      assert q[i] == lowered[k + i] == LowerChar(input[k + i]);
    }
  }

  /** Lower-casing maps white space, and only white space, to white space. */
  lemma LowerSpaces(s: string, from: int, to: int)
    requires 0 <= from <= to <= |s|
    ensures AllSpace(s[from..to]) <==> AllSpace(Lower(s)[from..to])
  {
    forall i | from <= i < to ensures IsSpace(s[i]) == IsSpace(Lower(s)[i]) {
      LowerCharSpace(s[i]);
    }
    assert forall i :: from <= i < to ==> s[from..to][i - from] == s[i] && Lower(s)[from..to][i - from] == Lower(s)[i];
  }

  /** A card is shown iff it matches the category key and the query. */
  predicate CardMatches(keywords: string, activeKey: string, query: string) {
    var k := Lower(keywords);
    (activeKey == AllKey || Contains(k, activeKey)) && (query == "" || Contains(k, query))
  }

  /** A card matches iff the key is `all` or occurs in its lower-cased keywords, and the query is empty or occurs there too. */
  lemma CardMatchesIff(keywords: string, activeKey: string, query: string)
    ensures CardMatches(keywords, activeKey, query)
            <==> (activeKey == AllKey || exists k :: OccursAt(Lower(keywords), activeKey, k))
                 && (query == "" || exists k :: OccursAt(Lower(keywords), query, k))
  {
    ContainsIffOccurs(Lower(keywords), activeKey);
    ContainsIffOccurs(Lower(keywords), query);
  }

  /** Nothing selected, nothing typed: the state on first load. */
  predicate Untouched(interacted: bool, query: string, activeKey: string) {
    !interacted && query == "" && activeKey == AllKey
  }

  /** Whether `applyFilters` shows the "no results" indicator. */
  function EmptyStateShown(interacted: bool, query: string, activeKey: string, visibleCount: nat): (shown: bool)
    ensures Untouched(interacted, query, activeKey) ==> !shown
    ensures !Untouched(interacted, query, activeKey) ==> (shown <==> visibleCount == 0)
  {
    if Untouched(interacted, query, activeKey) then false else visibleCount == 0
  }

  /**
   * The page as `applyFilters` leaves it: card `i` shown iff it matches, and
   * the indicator shown iff the page is not untouched and no card matches.
   */
  ghost predicate FilterView(cards: seq<Card>, shown: seq<bool>, activeKey: string, input: string,
                             interacted: bool, emptyShown: bool)
  {
    var query := Query(input);
    && |shown| == |cards|
    && (forall i :: 0 <= i < |cards| ==> shown[i] == CardMatches(cards[i].keywords, activeKey, query))
    && (emptyShown <==> !Untouched(interacted, query, activeKey)
                        && forall i :: 0 <= i < |cards| ==> !CardMatches(cards[i].keywords, activeKey, query))
  }

  /** The number of `true` entries. */
  function CountTrue(s: seq<bool>): nat {
    if s == [] then 0 else CountTrue(s[..|s| - 1]) + (if s[|s| - 1] then 1 else 0)
  }

  lemma {:induction false} CountTrueZero(s: seq<bool>)
    ensures CountTrue(s) == 0 <==> forall i :: 0 <= i < |s| ==> !s[i]
  {
    if s != [] {
      CountTrueZero(s[..|s| - 1]);
      assert forall i :: 0 <= i < |s| - 1 ==> s[..|s| - 1][i] == s[i];
    }
  }

  lemma {:induction false} CountTrueBound(s: seq<bool>)
    ensures CountTrue(s) <= |s|
    ensures CountTrue(s) == |s| <==> forall i :: 0 <= i < |s| ==> s[i]
  {
    if s != [] {
      CountTrueBound(s[..|s| - 1]);
      assert forall i :: 0 <= i < |s| - 1 ==> s[..|s| - 1][i] == s[i];
    }
  }

  /**
   * The loop of `applyFilters`: every card is set shown or hidden by
   * `CardMatches`, and `count` is the number shown.
   */
  method ApplyFilterLoop(cards: seq<Card>, visible: array<bool>, activeKey: string, query: string)
    returns (count: nat)
    requires visible.Length == |cards|
    modifies visible
    ensures forall i :: 0 <= i < |cards| ==> visible[i] == CardMatches(cards[i].keywords, activeKey, query)
    ensures count == CountTrue(visible[..])
    ensures count == 0 <==> forall i :: 0 <= i < |cards| ==> !CardMatches(cards[i].keywords, activeKey, query)
  {
    count := 0;
    var i := 0;
    while i < |cards|
      invariant 0 <= i <= |cards|
      invariant forall j :: 0 <= j < i ==> visible[j] == CardMatches(cards[j].keywords, activeKey, query)
      invariant count == CountTrue(visible[..i])
    {
      var keywords := Lower(cards[i].keywords);
      var matchButton := activeKey == AllKey || Contains(keywords, activeKey);
      var matchSearch := query == "" || Contains(keywords, query);
      if matchButton && matchSearch {
        visible[i] := true;
        count := count + 1;
      } else {
        visible[i] := false;
      }
      assert visible[..i + 1][..i] == visible[..i];
      i := i + 1;
    }
    assert visible[..i] == visible[..];
    CountTrueZero(visible[..]);
  }

  /** Removes `active` from every filter button, then adds it to button `b`. */
  method ActivateOnly(active: array<bool>, b: nat)
    requires b < active.Length
    modifies active
    ensures forall i :: 0 <= i < active.Length ==> active[i] == (i == b)
  {
    var i := 0;
    while i < active.Length
      invariant 0 <= i <= active.Length
      invariant forall j :: 0 <= j < i ==> !active[j]
    {
      active[i] := false;
      i := i + 1;
    }
    active[b] := true;
  }

  // ---------------------------------------------------------------------
  // Autocomplete
  // ---------------------------------------------------------------------

  const MaxSuggestions: nat := 6

  predicate NameMatches(name: string, query: string) {
    Contains(Lower(name), query)
  }

  /** A name matches iff the query occurs in its lower-cased form. */
  lemma NameMatchesIff(name: string, query: string)
    ensures NameMatches(name, query) <==> exists k :: OccursAt(Lower(name), query, k)
  {
    ContainsIffOccurs(Lower(name), query);
  }

  /** `characters.filter(name => name.toLowerCase().includes(query))`. */
  function Matches(names: seq<string>, query: string): (r: seq<string>)
    ensures forall n :: n in r <==> n in names && NameMatches(n, query)
    ensures |r| <= |names|
  {
    if names == [] then []
    else
      assert names == [names[0]] + names[1..];
      (if NameMatches(names[0], query) then [names[0]] else []) + Matches(names[1..], query)
  }

  /** The matches keep list order: filtering distributes over concatenation. */
  lemma {:induction false} MatchesAppend(a: seq<string>, b: seq<string>, query: string)
    ensures Matches(a + b, query) == Matches(a, query) + Matches(b, query)
  {
    if a == [] {
      assert a + b == b;
    } else {
      assert (a + b)[1..] == a[1..] + b;
      assert (a + b)[0] == a[0];
      MatchesAppend(a[1..], b, query);
    }
  }

  /** The entries `showSuggestions` renders: none for an empty query, else the first six matches. */
  function SuggestionEntries(names: seq<string>, query: string): (r: seq<string>)
    ensures |r| <= MaxSuggestions
    ensures query == "" ==> r == []
    ensures query != "" ==> |r| == (if |Matches(names, query)| < MaxSuggestions then |Matches(names, query)| else MaxSuggestions)
    ensures query != "" ==> IsPrefix(r, Matches(names, query))
    ensures forall n :: n in r ==> n in names && NameMatches(n, query)
  {
    if query == "" then []
    else
      var m := Matches(names, query);
      if |m| <= MaxSuggestions then m else m[..MaxSuggestions]
  }

  /**
   * The body of `showSuggestions` for a given query: the box is emptied, then,
   * unless the query is empty, the first six matches are appended one by one
   * and the box is shown iff there was any match.
   */
  method RenderSuggestions(names: seq<string>, query: string) returns (entries: seq<string>, shown: bool)
    ensures entries == SuggestionEntries(names, query)
    ensures shown == SuggestionsShown(names, query)
  {
    entries := [];
    if query == "" {
      shown := false;
      return;
    }
    var matches := Matches(names, query);
    var first := if |matches| <= MaxSuggestions then matches else matches[..MaxSuggestions];
    var k := 0;
    while k < |first|
      invariant 0 <= k <= |first|
      invariant entries == first[..k]
    {
      entries := entries + [first[k]];
      assert first[..k + 1] == first[..k] + [first[k]];
      k := k + 1;
    }
    assert first[..k] == first;
    shown := |matches| > 0;
  }

  /** Whether the suggestion box is displayed after `showSuggestions`. */
  predicate SuggestionsShown(names: seq<string>, query: string) {
    query != "" && |Matches(names, query)| > 0
  }

  /** The suggestion box as `showSuggestions` leaves it for the names and the box value `input`. */
  ghost predicate SuggestionView(names: seq<string>, input: string, entries: seq<string>, shown: bool) {
    var query := Query(input);
    && entries == SuggestionEntries(names, query)
    && shown == SuggestionsShown(names, query)
  }

  /** The box shows iff the query is non-empty and some name contains it, ignoring case. */
  lemma SuggestionsShownIff(names: seq<string>, query: string)
    ensures SuggestionsShown(names, query) <==> query != "" && exists n :: n in names && NameMatches(n, query)
  {
    var m := Matches(names, query);
    if m != [] {
      assert m[0] in m;
    }
  }
}
