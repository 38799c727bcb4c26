/**
 * The view state of the reduced gallery page (`imag/script.js`): the same
 * filter buttons, search box, "no results" indicator and autocomplete box as
 * the main page, over the cards captured when the script starts, and a
 * lightbox that only shows the clicked image (no caption, no navigation).
 */
module ImagGallery {
  import opened Wrappers
  import opened Text
  import opened Filter
  import opened CharacterList

  class Gallery {
    /** The `.img-card` elements found at start-up; later cards are never filtered. */
    const cards: seq<Card>
    const visible: array<bool>
    const buttonKeys: seq<string>
    const buttonActive: array<bool>

    var activeKey: string
    var inputValue: string
    var userHasInteracted: bool
    var emptyShown: bool
    var characters: seq<string>
    var suggestions: seq<string>
    var suggestionsShown: bool

    var modalOpen: bool
    var modalSrc: string
    /** `document.body.style.overflow == "hidden"`. */
    var scrollLocked: bool

    ghost predicate Valid() {
      && visible.Length == |cards|
      && buttonActive.Length == |buttonKeys|
      && visible != buttonActive
    }

    /** The cards and the indicator are as `applyFilters` leaves them for the current state. */
    ghost predicate Filtered()
      reads visible, this`inputValue, this`activeKey, this`userHasInteracted, this`emptyShown
    {
      FilterView(cards, visible[..], activeKey, inputValue, userHasInteracted, emptyShown)
    }

    /** The suggestion box is as `showSuggestions` leaves it for the current names and query. */
    ghost predicate Suggested()
      reads this`characters, this`inputValue, this`suggestions, this`suggestionsShown
    {
      SuggestionView(characters, inputValue, suggestions, suggestionsShown)
    }

    /** The page as loaded: all cards shown, indicator forced hidden, lightbox closed. */
    constructor (cards: seq<Card>, buttonKeys: seq<string>, initiallyActive: seq<bool>)
      requires |initiallyActive| == |buttonKeys|
      ensures Valid() && fresh(visible) && fresh(buttonActive)
      ensures this.cards == cards && this.buttonKeys == buttonKeys
      ensures forall i :: 0 <= i < |cards| ==> visible[i]
      ensures buttonActive[..] == initiallyActive
      ensures activeKey == AllKey && inputValue == "" && !userHasInteracted && !emptyShown
      ensures characters == [] && suggestions == [] && !suggestionsShown
      ensures !modalOpen && modalSrc == "" && !scrollLocked
    {
      this.cards := cards;
      this.buttonKeys := buttonKeys;
      visible := new bool[|cards|](_ => true);
      buttonActive := new bool[|buttonKeys|](i requires 0 <= i < |buttonKeys| => initiallyActive[i]);
      activeKey := AllKey;
      inputValue := "";
      userHasInteracted := false;
      emptyShown := false;
      characters := [];
      suggestions := [];
      suggestionsShown := false;
      modalOpen := false;
      modalSrc := "";
      scrollLocked := false;
    }

    /** `applyFilters`: every card shown iff it matches; indicator per the first-load guard. */
    method ApplyFilters()
      requires Valid()
      modifies visible, this`emptyShown
      ensures Filtered()
      ensures emptyShown == EmptyStateShown(userHasInteracted, Query(inputValue), activeKey, CountTrue(visible[..]))
    {
      var query := Query(inputValue);
      var visibleCount := ApplyFilterLoop(cards, visible, activeKey, query);
      if Untouched(userHasInteracted, query, activeKey) {
        emptyShown := false;
        return;
      }
      emptyShown := visibleCount == 0;
    }

    /** A click on filter button `b`. */
    method ClickCategory(b: nat)
      requires Valid() && b < |buttonKeys|
      modifies visible, buttonActive, this`userHasInteracted, this`activeKey, this`inputValue, this`suggestionsShown, this`emptyShown
      ensures Filtered()
      ensures userHasInteracted && activeKey == Lower(buttonKeys[b]) && inputValue == "" && !suggestionsShown
      ensures forall i :: 0 <= i < |buttonKeys| ==> buttonActive[i] == (i == b)
    {
      userHasInteracted := true;
      ActivateOnly(buttonActive, b);
      activeKey := Lower(buttonKeys[b]);
      inputValue := "";
      suggestionsShown := false;
      ApplyFilters();
    }

    /** An `input` event: the search box now holds `value`. */
    method Input(value: string)
      requires Valid()
      modifies visible, this`inputValue, this`userHasInteracted, this`emptyShown, this`suggestions, this`suggestionsShown
      ensures Filtered() && Suggested()
      ensures userHasInteracted && inputValue == value
    {
      inputValue := value;
      userHasInteracted := true;
      ApplyFilters();
      ShowSuggestions();
    }

    /** `showSuggestions`: the first six matching names, shown iff any name matches. */
    method ShowSuggestions()
      modifies this`suggestions, this`suggestionsShown
      ensures Suggested()
    {
      var query := Query(inputValue);
      suggestions, suggestionsShown := RenderSuggestions(characters, query);
    }

    /** A click on rendered suggestion `k`: it becomes the query and the cards are re-filtered. */
    method ClickSuggestion(k: nat)
      requires Valid() && k < |suggestions|
      modifies visible, this`inputValue, this`userHasInteracted, this`emptyShown, this`suggestionsShown
      ensures Filtered()
      ensures userHasInteracted && inputValue == suggestions[k] && !suggestionsShown
    {
      userHasInteracted := true;
      inputValue := suggestions[k];
      suggestionsShown := false;
      ApplyFilters();
    }

    /** The start-up load of the name list; on failure the list stays as it was. */
    method LoadCharacters(fetch: (string, string) -> Option<Page>, leq: (string, string) -> bool)
      returns (ghost playablePages: seq<Page>, ghost otherPages: seq<Page>)
      requires TotalOrder(leq)
      modifies this`characters
      ensures Followed(fetch, "Category:Playable Characters", playablePages, DefaultMax)
      ensures Followed(fetch, "Category:Characters", otherPages, DefaultMax)
      ensures Completed(playablePages, DefaultMax) && Completed(otherPages, DefaultMax)
              ==> characters == CharacterNames(Flatten(playablePages), Flatten(otherPages), leq)
      ensures !(Completed(playablePages, DefaultMax) && Completed(otherPages, DefaultMax))
              ==> characters == old(characters)
      ensures !(Completed(playablePages, DefaultMax) && Completed(otherPages, DefaultMax))
              ==> Threw(fetch, "Category:Playable Characters", playablePages, DefaultMax)
                  || (Completed(playablePages, DefaultMax) && Threw(fetch, "Category:Characters", otherPages, DefaultMax))
    {
      var loaded;
      loaded, playablePages, otherPages := BuildCharacterNameList(fetch, leq);
      if loaded.Some? {
        characters := loaded.value;
      }
    }

    /** A click on the image of card `c`: the lightbox opens on that image. */
    method OpenImage(c: nat)
      requires c < |cards|
      modifies this`modalOpen, this`modalSrc, this`scrollLocked
      ensures modalOpen && modalSrc == cards[c].src && scrollLocked
    {
      modalOpen := true;
      modalSrc := cards[c].src;
      scrollLocked := true;
    }

    /** `closeModal`. */
    method CloseModal()
      modifies this`modalOpen, this`modalSrc, this`scrollLocked
      ensures !modalOpen && modalSrc == "" && !scrollLocked
    {
      modalOpen := false;
      modalSrc := "";
      scrollLocked := false;
    }

    /**
     * A click on the close control. `closeBtn` is the same element as `modalClose`
     * and both registrations pass the same `closeModal` function, so the second
     * `addEventListener` is ignored and one listener runs.
     */
    method ClickClose()
      modifies this`modalOpen, this`modalSrc, this`scrollLocked
      ensures !modalOpen && modalSrc == "" && !scrollLocked
    {
      CloseModal();
    }

    /** A click inside the lightbox: two listeners, each closing it only when the target is the backdrop. */
    method ClickModal(onBackdrop: bool)
      modifies this`modalOpen, this`modalSrc, this`scrollLocked
      ensures onBackdrop ==> !modalOpen && modalSrc == "" && !scrollLocked
      ensures !onBackdrop ==> modalOpen == old(modalOpen) && modalSrc == old(modalSrc) && scrollLocked == old(scrollLocked)
    {
      if onBackdrop {
        CloseModal();
      }
      if onBackdrop {
        CloseModal();
      }
    }
  }
}
