/**
 * The view state of the main gallery page (`script.js`): the cards shown or
 * hidden by the category buttons and the search box, the "no results"
 * indicator, the autocomplete box, and the lightbox with next/previous
 * navigation over a snapshot of the cards visible when it opened.
 *
 * Each DOM event handler is a method. The card list is the one present when
 * the gallery is built; `visible[i]` is false iff card `i` has `display: none`.
 */
module MainGallery {
  import opened Wrappers
  import opened Text
  import opened Filter
  import opened Navigation
  import opened CharacterList

  datatype Key = Escape | ArrowLeft | ArrowRight | OtherKey

  const DefaultCaption: string := "Gallery Image"

  /** `card.querySelector(".tag")?.textContent || "Gallery Image"`. */
  function Caption(card: Card): (r: string)
    ensures r != ""
    ensures card.tag != "" ==> r == card.tag
    ensures card.tag == "" ==> r == DefaultCaption
  {
    if card.tag == "" then DefaultCaption else card.tag
  }

  /** The positions of the shown cards, in document order. */
  function ShownIndices(visible: seq<bool>): (r: seq<nat>)
    ensures forall k :: 0 <= k < |r| ==> r[k] < |visible| && visible[r[k]]
    ensures forall c :: 0 <= c < |visible| && visible[c] ==> c in r
    ensures forall a, b :: 0 <= a < b < |r| ==> r[a] < r[b]
  {
    if visible == [] then []
    else
      var n := |visible| - 1;
      var rest := ShownIndices(visible[..n]);
      assert forall c :: 0 <= c < n ==> visible[..n][c] == visible[c];
      rest + (if visible[n] then [n] else [])
  }

  /** `Array.prototype.indexOf`: the first position of `x`, or -1. */
  function IndexOf(s: seq<nat>, x: nat): (r: int)
    ensures -1 <= r < |s|
    ensures r >= 0 ==> s[r] == x && x !in s[..r]
    ensures r == -1 <==> x !in s
  {
    if s == [] then -1
    else if s[0] == x then 0
    else
      var r := IndexOf(s[1..], x);
      assert s == [s[0]] + s[1..];
      if r == -1 then -1
      else
        assert s[..r + 1] == [s[0]] + s[1..][..r];
        r + 1
  }

  /** A snapshot: distinct card positions in document order. */
  ghost predicate Ascending(snapshot: seq<nat>, cardCount: nat) {
    && (forall k :: 0 <= k < |snapshot| ==> snapshot[k] < cardCount)
    && (forall a, b :: 0 <= a < b < |snapshot| ==> snapshot[a] < snapshot[b])
  }

  /**
   * The snapshot taken when card `c` is opened lists every shown card in
   * document order, and `c` is found in it exactly when it is shown.
   */
  lemma SnapshotOf(visible: seq<bool>, c: nat)
    requires c < |visible|
    ensures Ascending(ShownIndices(visible), |visible|)
    ensures visible[c] ==> 0 <= IndexOf(ShownIndices(visible), c) && ShownIndices(visible)[IndexOf(ShownIndices(visible), c)] == c
    ensures !visible[c] ==> IndexOf(ShownIndices(visible), c) == -1
  {
    var snapshot := ShownIndices(visible);
    if !visible[c] {
      assert c !in snapshot;
    }
  }

  class Gallery {
    const cards: seq<Card>
    const visible: array<bool>
    /** The lower-cased `data-key` of each filter button is what a click selects. */
    const buttonKeys: seq<string>
    const buttonActive: array<bool>

    var activeKey: string
    var inputValue: string
    var userHasInteracted: bool
    var emptyShown: bool
    var characters: seq<string>
    var suggestions: seq<string>
    var suggestionsShown: bool

    var modalOpen: bool
    var modalSrc: string
    var modalCaption: string
    /** `document.body.style.overflow == "hidden"`. */
    var scrollLocked: bool
    var snapshot: seq<nat>
    var index: int

    ghost predicate Valid()
      reads this`modalOpen, this`snapshot, this`index
    {
      && visible.Length == |cards|
      && buttonActive.Length == |buttonKeys|
      && visible != buttonActive
      && Ascending(snapshot, |cards|)
      && -1 <= index < |snapshot|
      && (!modalOpen ==> snapshot == [] && index == -1)
    }

    /** The cards and the indicator are as `applyFilters` leaves them for the current state. */
    ghost predicate Filtered()
      reads visible, this`inputValue, this`activeKey, this`userHasInteracted, this`emptyShown
    {
      FilterView(cards, visible[..], activeKey, inputValue, userHasInteracted, emptyShown)
    }

    /** The suggestion box is as `showSuggestions` leaves it for the current names and query. */
    ghost predicate Suggested()
      reads this`characters, this`inputValue, this`suggestions, this`suggestionsShown
    {
      SuggestionView(characters, inputValue, suggestions, suggestionsShown)
    }

    /** The page as loaded: all cards shown, indicator forced hidden, lightbox closed. */
    constructor (cards: seq<Card>, buttonKeys: seq<string>, initiallyActive: seq<bool>)
      requires |initiallyActive| == |buttonKeys|
      ensures Valid() && fresh(visible) && fresh(buttonActive)
      ensures this.cards == cards && this.buttonKeys == buttonKeys
      ensures forall i :: 0 <= i < |cards| ==> visible[i]
      ensures buttonActive[..] == initiallyActive
      ensures activeKey == AllKey && inputValue == "" && !userHasInteracted && !emptyShown
      ensures characters == [] && suggestions == [] && !suggestionsShown
      ensures !modalOpen && modalSrc == "" && !scrollLocked && snapshot == [] && index == -1
    {
      this.cards := cards;
      this.buttonKeys := buttonKeys;
      visible := new bool[|cards|](_ => true);
      buttonActive := new bool[|buttonKeys|](i requires 0 <= i < |buttonKeys| => initiallyActive[i]);
      activeKey := AllKey;
      inputValue := "";
      userHasInteracted := false;
      emptyShown := false;
      characters := [];
      suggestions := [];
      suggestionsShown := false;
      modalOpen := false;
      modalSrc := "";
      modalCaption := "";
      scrollLocked := false;
      snapshot := [];
      index := -1;
    }

    /** `applyFilters`: every card shown iff it matches; indicator per the first-load guard. */
    method ApplyFilters()
      requires Valid()
      modifies visible, this`emptyShown
      ensures Valid() && Filtered()
      ensures emptyShown == EmptyStateShown(userHasInteracted, Query(inputValue), activeKey, CountTrue(visible[..]))
    {
      var query := Query(inputValue);
      var visibleCount := ApplyFilterLoop(cards, visible, activeKey, query);
      if Untouched(userHasInteracted, query, activeKey) {
        emptyShown := false;
        return;
      }
      emptyShown := visibleCount == 0;
    }

    /** A click on filter button `b`. */
    method ClickCategory(b: nat)
      requires Valid() && b < |buttonKeys|
      modifies visible, buttonActive, this`userHasInteracted, this`activeKey, this`inputValue, this`suggestionsShown, this`emptyShown
      ensures Valid() && Filtered()
      ensures userHasInteracted && activeKey == Lower(buttonKeys[b]) && inputValue == "" && !suggestionsShown
      ensures forall i :: 0 <= i < |buttonKeys| ==> buttonActive[i] == (i == b)
    {
      userHasInteracted := true;
      ActivateOnly(buttonActive, b);
      activeKey := Lower(buttonKeys[b]);
      inputValue := "";
      suggestionsShown := false;
      ApplyFilters();
    }

    /** An `input` event: the search box now holds `value`. */
    method Input(value: string)
      requires Valid()
      modifies visible, this`inputValue, this`userHasInteracted, this`emptyShown, this`suggestions, this`suggestionsShown
      ensures Valid() && Filtered() && Suggested()
      ensures userHasInteracted && inputValue == value
    {
      inputValue := value;
      userHasInteracted := true;
      ApplyFilters();
      ShowSuggestions();
    }

    /** `showSuggestions`: the first six matching names, shown iff any name matches. */
    method ShowSuggestions()
      requires Valid()
      modifies this`suggestions, this`suggestionsShown
      ensures Valid()
      ensures Suggested()
    {
      var query := Query(inputValue);
      suggestions, suggestionsShown := RenderSuggestions(characters, query);
    }

    /** A click on rendered suggestion `k`: it becomes the query and the cards are re-filtered. */
    method ClickSuggestion(k: nat)
      requires Valid() && k < |suggestions|
      modifies visible, this`inputValue, this`userHasInteracted, this`emptyShown, this`suggestionsShown
      ensures Valid() && Filtered()
      ensures userHasInteracted && inputValue == suggestions[k] && !suggestionsShown
    {
      userHasInteracted := true;
      inputValue := suggestions[k];
      suggestionsShown := false;
      ApplyFilters();
    }

    /** The start-up load of the name list; on failure the list stays as it was. */
    method LoadCharacters(fetch: (string, string) -> Option<Page>, leq: (string, string) -> bool)
      returns (ghost playablePages: seq<Page>, ghost otherPages: seq<Page>)
      requires Valid() && TotalOrder(leq)
      modifies this`characters
      ensures Valid()
      ensures Followed(fetch, "Category:Playable Characters", playablePages, DefaultMax)
      ensures Followed(fetch, "Category:Characters", otherPages, DefaultMax)
      ensures Completed(playablePages, DefaultMax) && Completed(otherPages, DefaultMax)
              ==> characters == CharacterNames(Flatten(playablePages), Flatten(otherPages), leq)
      ensures !(Completed(playablePages, DefaultMax) && Completed(otherPages, DefaultMax))
              ==> characters == old(characters)
      ensures !(Completed(playablePages, DefaultMax) && Completed(otherPages, DefaultMax))
              ==> Threw(fetch, "Category:Playable Characters", playablePages, DefaultMax)
                  || (Completed(playablePages, DefaultMax) && Threw(fetch, "Category:Characters", otherPages, DefaultMax))
    {
      var loaded;
      loaded, playablePages, otherPages := BuildCharacterNameList(fetch, leq);
      if loaded.Some? {
        characters := loaded.value;
      }
    }

    /** `openModal`: a click on the image of card `c`. */
    method OpenModal(c: nat)
      requires Valid() && c < |cards|
      modifies this`modalOpen, this`modalSrc, this`modalCaption, this`scrollLocked, this`snapshot, this`index
      ensures Valid()
      ensures modalOpen && modalSrc == cards[c].src && modalCaption == Caption(cards[c]) && scrollLocked
      ensures snapshot == ShownIndices(visible[..]) && index == IndexOf(snapshot, c)
      ensures visible[c] ==> 0 <= index && snapshot[index] == c
      ensures !visible[c] ==> index == -1
    {
      modalOpen := true;
      modalSrc := cards[c].src;
      modalCaption := Caption(cards[c]);
      SnapshotOf(visible[..], c);
      snapshot := ShownIndices(visible[..]);
      index := IndexOf(snapshot, c);
      scrollLocked := true;
    }

    /** `closeModal`; the caption text is left as it was. */
    method CloseModal()
      requires Valid()
      modifies this`modalOpen, this`modalSrc, this`scrollLocked, this`snapshot, this`index
      ensures Valid()
      ensures !modalOpen && modalSrc == "" && !scrollLocked && snapshot == [] && index == -1
    {
      modalOpen := false;
      modalSrc := "";
      scrollLocked := false;
      index := -1;
      snapshot := [];
    }

    /** `updateModal`: shows the snapshot card at `index`. */
    method UpdateModal()
      requires Valid() && 0 <= index < |snapshot|
      modifies this`modalSrc, this`modalCaption
      ensures Valid()
      ensures modalSrc == cards[snapshot[index]].src && modalCaption == Caption(cards[snapshot[index]])
    {
      var card := cards[snapshot[index]];
      modalSrc := card.src;
      modalCaption := Caption(card);
    }

    /** `navigateNext`: a no-op on an empty snapshot, else one step forward with wrap-around. */
    method NavigateNext()
      requires Valid()
      modifies this`index, this`modalSrc, this`modalCaption
      ensures Valid()
      ensures snapshot == [] ==> index == old(index) && modalSrc == old(modalSrc) && modalCaption == old(modalCaption)
      ensures snapshot != [] ==> index == Next(old(index), |snapshot|)
                                 && modalSrc == cards[snapshot[index]].src && modalCaption == Caption(cards[snapshot[index]])
    {
      if |snapshot| == 0 {
        return;
      }
      index := Next(index, |snapshot|);
      UpdateModal();
    }

    /** `navigatePrevious`: a no-op on an empty snapshot, else one step back with wrap-around. */
    method NavigatePrevious()
      requires Valid()
      modifies this`index, this`modalSrc, this`modalCaption
      ensures Valid()
      ensures snapshot == [] ==> index == old(index) && modalSrc == old(modalSrc) && modalCaption == old(modalCaption)
      ensures snapshot != [] ==> index == Prev(old(index), |snapshot|)
                                 && modalSrc == cards[snapshot[index]].src && modalCaption == Caption(cards[snapshot[index]])
    {
      if |snapshot| == 0 {
        return;
      }
      index := Prev(index, |snapshot|);
      UpdateModal();
    }

    /** The document `keydown` listener: acts only while the lightbox is open. */
    method KeyDown(key: Key)
      requires Valid()
      modifies this`modalOpen, this`modalSrc, this`modalCaption, this`scrollLocked, this`snapshot, this`index
      ensures Valid()
      ensures !old(modalOpen) ==> modalOpen == old(modalOpen) && modalSrc == old(modalSrc) && scrollLocked == old(scrollLocked)
                                  && modalCaption == old(modalCaption) && snapshot == old(snapshot) && index == old(index)
      ensures old(modalOpen) && key == Escape ==> !modalOpen && modalSrc == "" && !scrollLocked && snapshot == [] && index == -1
      ensures key == Escape ==> modalCaption == old(modalCaption)
      ensures old(modalOpen) && key == ArrowLeft && old(snapshot) != [] ==> index == Prev(old(index), |old(snapshot)|)
      ensures old(modalOpen) && key == ArrowRight && old(snapshot) != [] ==> index == Next(old(index), |old(snapshot)|)
      ensures old(modalOpen) && (key == ArrowLeft || key == ArrowRight) && old(snapshot) != []
              ==> modalSrc == cards[snapshot[index]].src && modalCaption == Caption(cards[snapshot[index]])
      ensures old(modalOpen) && key != Escape && old(snapshot) == []
              ==> index == old(index) && modalSrc == old(modalSrc) && modalCaption == old(modalCaption)
      ensures old(modalOpen) && key == OtherKey
              ==> modalOpen && index == old(index) && snapshot == old(snapshot)
                  && modalSrc == old(modalSrc) && modalCaption == old(modalCaption)
      ensures key != Escape ==> snapshot == old(snapshot) && modalOpen == old(modalOpen) && scrollLocked == old(scrollLocked)
    {
      if !modalOpen {
        return;
      }
      if key == Escape {
        CloseModal();
      }
      if key == ArrowLeft {
        NavigatePrevious();
      }
      if key == ArrowRight {
        NavigateNext();
      }
    }

    /**
     * A click on the close control. `closeBtn` is the same element as `modalClose`
     * and both registrations pass the same `closeModal` function, so the second
     * `addEventListener` is ignored and one listener runs.
     */
    method ClickClose()
      requires Valid()
      modifies this`modalOpen, this`modalSrc, this`scrollLocked, this`snapshot, this`index
      ensures Valid()
      ensures !modalOpen && modalSrc == "" && !scrollLocked && snapshot == [] && index == -1
    {
      CloseModal();
    }

    /** A click inside the lightbox: closes it only when the target is the backdrop itself. */
    method ClickModal(onBackdrop: bool)
      requires Valid()
      modifies this`modalOpen, this`modalSrc, this`scrollLocked, this`snapshot, this`index
      ensures Valid()
      ensures onBackdrop ==> !modalOpen && modalSrc == "" && !scrollLocked && snapshot == [] && index == -1
      ensures !onBackdrop ==> modalOpen == old(modalOpen) && modalSrc == old(modalSrc) && scrollLocked == old(scrollLocked)
                              && snapshot == old(snapshot) && index == old(index)
    {
      if onBackdrop {
        CloseModal();
      }
      if onBackdrop {
        CloseModal();
      }
    }
  }
}
