# Genshin gallery: view state, name list and upload store

This project models the thinking part of a small image gallery site. It has
three pieces:

- **The main gallery page** (`script.js`):
  - Category buttons and a search box show or hide cards.
  - A "no results" indicator appears, guarded so it does not show on first load.
  - An autocomplete box offers character names loaded page by page from a wiki category listing.
  - A lightbox moves with next/previous, wrapping around, over a snapshot of the cards that were visible when it opened.
- **The reduced gallery page** (`imag/script.js`). It has the same filter, indicator and autocomplete. Its lightbox only shows the clicked image.
- **The image server** (`server.js`):
  - The stored name of an uploaded file: the upload time in milliseconds, `-`, then the original name with every run of white space replaced by one `-`.
  - The defaults of the `tags` and `element` form fields.
  - The record appended to `database.json`.
  - Listing the stored records.

Each page is a class whose methods are the DOM event handlers. The class has
these fields:

- the cards found at start-up;
- an array telling which cards are shown, and another telling which filter button is active;
- the search box value, the active key and the interaction flag;
- the indicator, the suggestion entries and the box's visibility;
- the lightbox fields: open, image, caption, scroll lock, snapshot, index.

Each handler's contract states the view it leaves. `Filtered()` says every card
is shown iff it matches and the indicator follows the first-load guard.
`Suggested()` says the box holds the first six matches, in list order, and is
shown iff something matches.

The loops of the source are `while` loops proved against specification
functions:

- the card loop of `applyFilters`;
- the rendering of suggestions;
- the paging loop of `fetchCategoryMembers` and its inner loop over one response.

The pure parts are functions with lemmas: `normalizeTitle`, `uniqueSorted`, the
block-list filter, the wrap-around index arithmetic, the file-name rule and the
record.

Things outside the program are parameters:

- The wiki request is `fetch(category, token)`. It returns the decoded page, or `None` when the request or the JSON decoding throws.
- `localeCompare` is a total order `leq`.
- The clocks start from a millisecond count `nowMs` and the ISO text `isoNow`.
- For the file system, the database file is a value: missing, a record array, or unparsable. The upload folder is a set of names. Whether the write back succeeds is a flag.

JavaScript's `%` truncates toward zero. It is written out in `Navigation.JsRem`,
because the previous-picture formula can meet a negative dividend when the
clicked card is not in the snapshot (index -1).

Two behaviours worth noting:

- `closeModal` in `script.js` does not clear the caption (`modalInfo`). `MainGallery.Gallery.CloseModal` leaves it as it was.
- The empty-state indicator is hidden when the page loads (`script.js:35-37`), before any handler runs.

## Model

| member | source | states |
|---|---|---|
| Text.Lower | script.js:156 | `toLowerCase` keeps the length and lower-cases character by character (ASCII letters) |
| Text.LowerIdempotent | script.js:163 | lower-casing an already lower-cased string changes nothing |
| Text.LowerCharSpace | script.js:156 | lower-casing maps white space, and only white space, to white space |
| Text.TrimStartShape | script.js:156 | the leading-trim result is a suffix of the input, preceded only by white space, not starting with white space |
| Text.TrimEndShape | script.js:156 | the trailing-trim result is a prefix of the input, followed only by white space, not ending with white space |
| Text.Trim | script.js:156 | `trim` never lengthens its input; `Text.TrimShape` states its value |
| Text.TrimShape | script.js:156 | `trim` returns the piece of its input left after cutting white space from both ends, and that piece neither starts nor ends with white space |
| Text.TrimFixpoint | script.js:238 | a string that neither starts nor ends with white space is its own trim |
| Text.TrimIdempotent | script.js:238 | trimming twice is trimming once |
| Text.ContainsIffOccurs | script.js:166-169 | `includes` (the predicate `Text.Contains`) holds iff the substring occurs at some position |
| Text.StripPrefixCI | script.js:236 | `replace(/^Category:/i, "")` splits off the prefix when it matches ignoring case and otherwise returns the input |
| Text.StripSuffixCI | script.js:237 | `replace(/\/Storyline$/i, "")` splits off the suffix when it matches ignoring case and otherwise returns the input |
| Text.StripPrefixOccurs | script.js:236 | the stripped title is the tail of the original |
| Text.StripSuffixOccurs | script.js:237 | the stripped title is the head of the original |
| CharacterList.NormalizeTitle | script.js:234-239 | the cleaned title neither starts nor ends with white space and is no longer than the original |
| CharacterList.NormalizeTitleOccurs | script.js:234-239 | the cleaned title is a piece of the original title |
| CharacterList.NormalizeWrapped | imag/script.js:155-160 | `Category:<name>/Storyline` cleans to `<name>` for a trimmed name |
| CharacterList.NormalizeClean | imag/script.js:155-160 | a trimmed name without the prefix or suffix is left unchanged |
| CharacterList.Dedup | script.js:242 | `[...new Set(list)]` is duplicate-free, holds exactly the input's elements, and is no longer |
| CharacterList.Insert | script.js:242 | inserting into a sorted list keeps it sorted and adds exactly one copy of the element |
| CharacterList.Sort | script.js:242 | `sort` with the comparator yields a sorted permutation of its input |
| CharacterList.PermutationKeepsNoDup | script.js:242 | sorting a duplicate-free list keeps it duplicate-free |
| CharacterList.UniqueSorted | script.js:241-243 | the result is sorted, duplicate-free, and holds exactly the elements of the input |
| CharacterList.SortedSetsEqual | imag/script.js:162-164 | two sorted duplicate-free lists with the same elements are equal |
| CharacterList.UniqueSortedSetDetermined | imag/script.js:162-164 | the result depends only on which names occur, not on order or repetition |
| CharacterList.UniqueSortedIdempotent | script.js:241-243 | applying `uniqueSorted` to its own result changes nothing |
| CharacterList.NormalizeAll | script.js:249 | `map(normalizeTitle)` keeps the length and cleans each title in place |
| CharacterList.KeepNameIff | script.js:256 | a name is kept iff it is non-empty, not one of the four blocked names, and "List" occurs in it at no position |
| CharacterList.KeepNames | script.js:256 | the filter keeps exactly the names that are non-empty, not blocked and free of "List" |
| CharacterList.NormalizeAllMembers | script.js:249 | a name is among the cleaned titles iff some title cleans to it |
| CharacterList.CharacterNames | script.js:245-258 | the name list is sorted and duplicate-free; it holds a name iff the name passes the block filter and some fetched title cleans to it; every name is trimmed |
| CharacterList.Present | script.js:223-225 | a title is collected iff it occurs in the response and is present (non-empty) |
| CharacterList.FollowedExtend | script.js:205-229 | a further request issued with the last token, below the cap, extends the record of requests made |
| CharacterList.AppendPresent | script.js:223-225 | the inner loop appends the present titles of one response to the results, in order |
| CharacterList.FetchCategoryMembers | script.js:199-232 | at most 50 requests; each carries the previous response's token and is made only below `max` titles. On return the results are all titles of the responses in page order, and the loop stopped at 50 requests, at `max` titles or on a missing token. On a throw, the failing request was the next one due |
| CharacterList.BuildCharacterNameList | script.js:245-258 | fetches "Playable Characters", then "Characters". It succeeds iff both fetches complete; the list is then the sorted, duplicate-free, block-filtered cleaned names of both. Otherwise one of the two requests threw |
| Filter.Query | script.js:156 | the query is no longer than the search box value |
| Filter.QueryOccurs | script.js:156 | the query is the lower-cased box value with only white space cut from either end, and it is trimmed |
| Filter.QueryIsLower | script.js:278 | the query holds no upper-case ASCII letter |
| Filter.LowerSpaces | script.js:156 | a range of the box value is white space iff it is after lower-casing |
| Filter.CardMatchesIff | script.js:163-171 | a card matches iff the key is `all` or occurs in its lower-cased keywords, and the query is empty or occurs there too |
| Filter.EmptyStateShown | script.js:179-190 | hidden when nothing was touched (no interaction, empty query, key `all`), otherwise shown iff no card is visible |
| Filter.CountTrueZero | script.js:186 | no card is counted iff no card is shown |
| Filter.CountTrueBound | script.js:157-177 | the count is at most the number of cards, and equals it iff every card is shown |
| Filter.ApplyFilterLoop | script.js:157-177 | every card is shown iff it matches the key and the query; the count is the number shown, and is zero iff no card matches |
| Filter.ActivateOnly | script.js:132-133 | exactly the clicked button ends active |
| Filter.NameMatchesIff | script.js:287 | a name matches iff the query occurs in its lower-cased form |
| Filter.Matches | script.js:286-288 | a name is a match iff it is in the list and its lower-cased form contains the query |
| Filter.MatchesAppend | script.js:286-288 | matching keeps list order: it distributes over concatenation |
| Filter.SuggestionEntries | script.js:281-290 | no entries for an empty query; otherwise the first min(6, number of matches) matches, in list order |
| Filter.RenderSuggestions | script.js:277-303 | the rendered entries are the suggestion entries, and the box shows iff the query is non-empty and something matches |
| Filter.SuggestionsShownIff | script.js:302 | the box shows iff the query is non-empty and some name contains it ignoring case |
| Navigation.JsRem | script.js:97 | JavaScript's `%`: the dividend minus the divisor times the quotient truncated toward zero; Euclidean for a non-negative dividend, non-positive for a negative one, always strictly between `-n` and `n` |
| Navigation.ModBelowTwice | script.js:97 | the remainder of a value below twice the divisor is the value or the value minus the divisor |
| Navigation.Next | script.js:91 | the next index is in range: 0 after the last picture, otherwise one on (also from -1) |
| Navigation.Prev | script.js:97 | the previous index is in range: the last picture before the first, otherwise one back |
| Navigation.PrevFromFirst | script.js:97 | stepping back from picture 0 lands on picture n-1 |
| Navigation.FromMissing | script.js:53 | from a clicked card missing from the snapshot (-1), next goes to 0 and previous to n-2 (0 for one picture) |
| Navigation.PrevUndoesNext | script.js:89-99 | previous undoes next and next undoes previous |
| Navigation.NextTimes | script.js:89-93 | `k` presses of next stay in range, and are on a picture after at least one press |
| Navigation.NextTimesAdd | script.js:89-93 | `a` presses then `b` presses are `a + b` presses |
| Navigation.NextTimesNoWrap | script.js:89-93 | before the end of the snapshot each press moves one picture on |
| Navigation.NextFullCycle | script.js:89-93 | one press of next per picture returns to the starting picture |
| MainGallery.Caption | script.js:48 | the caption is the card's `.tag` text and "Gallery Image" when that is empty or missing; it is never empty |
| MainGallery.ShownIndices | script.js:52 | the snapshot lists exactly the shown cards, in document order |
| MainGallery.IndexOf | script.js:53 | `indexOf`: the first position of the card, and -1 iff it is absent |
| MainGallery.SnapshotOf | script.js:52-53 | the snapshot is ascending; the clicked card is found in it iff it is shown |
| MainGallery.Gallery.constructor | script.js:4-37 | as loaded: every card shown, indicator hidden, key `all`, empty box, lightbox closed with index -1 and an empty snapshot |
| MainGallery.Gallery.ApplyFilters | script.js:155-191 | every card shown iff it matches; the indicator follows `EmptyStateShown` for the number shown |
| MainGallery.Gallery.ClickCategory | script.js:128-141 | sets the interaction flag, stores the lower-cased key, clears the box and hides suggestions; only that button is active; the cards are re-filtered |
| MainGallery.Gallery.Input | script.js:146-150 | the box value is the typed value; the interaction flag is set; the cards are re-filtered and the suggestions rendered for that value |
| MainGallery.Gallery.ShowSuggestions | script.js:277-303 | the box holds the suggestion entries for the current names and query, and shows iff something matches |
| MainGallery.Gallery.ClickSuggestion | script.js:293-298 | the clicked name becomes the box value, the box is hidden, the interaction flag is set, and the cards are re-filtered |
| MainGallery.Gallery.LoadCharacters | script.js:263-272 | both fetches follow the paging protocol. When both complete, the names become the built list. Otherwise a request of the first fetch threw, or the first completed and a request of the second threw, and the names stay as they were |
| MainGallery.Gallery.OpenModal | script.js:42-56 | opens on the clicked card's image and caption and locks scrolling; the snapshot is the shown cards in order; the index is the card's position there, or -1 when it is hidden |
| MainGallery.Gallery.CloseModal | script.js:80-87 | closes the lightbox, clears the image, unlocks scrolling, sets the index to -1 and empties the snapshot; the caption is left as it was |
| MainGallery.Gallery.UpdateModal | script.js:101-107 | shows the image and caption of the snapshot card at the index |
| MainGallery.Gallery.NavigateNext | script.js:89-93 | nothing changes on an empty snapshot; otherwise the index moves to `Next` and the lightbox shows that card's image and caption |
| MainGallery.Gallery.NavigatePrevious | script.js:95-99 | nothing changes on an empty snapshot; otherwise the index moves to `Prev` and the lightbox shows that card's image and caption |
| MainGallery.Gallery.KeyDown | script.js:72-78 | keys act only while the lightbox is open. Escape closes it and keeps the caption. The left and right arrows step back and forward and show the new card's image and caption, or change nothing on an empty snapshot. Other keys change nothing |
| MainGallery.Gallery.ClickClose | script.js:65 | one listener runs `closeModal` (the registration at `script.js:308` adds the same function to the same element, `closeBtn` being `modalClose`, and is ignored); the lightbox ends closed and reset |
| MainGallery.Gallery.ClickModal | script.js:67-69 | a click on the backdrop (also `script.js:310-312`) closes the lightbox; a click inside it changes nothing |
| ImagGallery.Gallery.constructor | imag/script.js:4-22 | as loaded: every start-up card shown, indicator hidden, key `all`, empty box, lightbox closed |
| ImagGallery.Gallery.ApplyFilters | imag/script.js:79-112 | every start-up card shown iff it matches; the indicator follows `EmptyStateShown` for the number shown |
| ImagGallery.Gallery.ClickCategory | imag/script.js:52-65 | sets the interaction flag, stores the lower-cased key, clears the box and hides suggestions; only that button is active; re-filters |
| ImagGallery.Gallery.Input | imag/script.js:70-74 | the box value is the typed value; the flag is set; the cards are re-filtered and the suggestions rendered for that value |
| ImagGallery.Gallery.ShowSuggestions | imag/script.js:198-224 | the box holds the first six matches in list order, shown iff something matches |
| ImagGallery.Gallery.ClickSuggestion | imag/script.js:214-219 | the clicked name becomes the box value, the box is hidden, the flag is set, and the cards are re-filtered |
| ImagGallery.Gallery.LoadCharacters | imag/script.js:184-193 | both fetches follow the paging protocol. When both complete, the names become the built list. Otherwise a request of the first fetch threw, or the first completed and a request of the second threw, and the names stay as they were |
| ImagGallery.Gallery.OpenImage | imag/script.js:27-33 | opens on the clicked image's source and locks scrolling |
| ImagGallery.Gallery.CloseModal | imag/script.js:41-45 | closes the lightbox, clears the image and unlocks scrolling |
| ImagGallery.Gallery.ClickClose | imag/script.js:35 | one listener runs `closeModal` (the registration at `imag/script.js:229` adds the same function to the same element, `closeBtn` being `modalClose`, and is ignored); the lightbox ends closed |
| ImagGallery.Gallery.ClickModal | imag/script.js:37-39 | a click on the backdrop (also `imag/script.js:231-233`) closes the lightbox; a click inside it changes nothing |
| UploadRules.Sanitize | server.js:33 | the sanitised name is no longer than the original |
| UploadRules.SanitizeNoSpace | server.js:33 | the sanitised name holds no white space |
| UploadRules.SanitizeKeeps | server.js:33 | a name without white space is kept as it is |
| UploadRules.SanitizeIdempotent | server.js:33 | sanitising the sanitised name changes nothing |
| UploadRules.SanitizeCopies | server.js:33 | characters outside white space are copied one for one |
| UploadRules.SanitizeRun | server.js:33 | a whole run of white space, up to the next non-space character, becomes a single `-` |
| UploadRules.TrimStartSkips | server.js:33 | a maximal run of leading white space is consumed in full and no further |
| UploadRules.Decimal | server.js:33 | `String(Date.now())` is a non-empty run of digits with no leading zero (other than "0") |
| UploadRules.ParseDecimalOfDecimal | server.js:33 | reading the decimal digits back gives the number |
| UploadRules.Filename | server.js:33 | the stored name is the decimal time stamp, then `-`, then the sanitised name, at fixed positions |
| UploadRules.FilenameNoSpace | server.js:33 | the stored file name holds no white space |
| UploadRules.FirstIndexOf | server.js:33 | the first position of a character, or -1 iff it is absent |
| UploadRules.ParseFilenameOfFilename | server.js:33 | the stored name splits back, at its first `-`, into the upload time and the sanitised name |
| UploadRules.FilenameInjective | server.js:33 | two uploads share a stored name only at the same millisecond with the same sanitised name |
| UploadRules.OrDefault | server.js:56-57 | the JavaScript `or` of field and fallback: the field when it is a non-empty string, the fallback when it is missing or empty |
| UploadRules.UrlOf | server.js:61 | the URL is `images/uploads/` followed by the stored name |
| UploadRules.MakeRecord | server.js:60-65 | the record's URL names the stored file; the tags and element default to "Gallery Image" and "Pyro" and are never empty; `createdAt` is the ISO time |
| UploadRules.UrlNamesFile | server.js:61 | the stored name can be read back from the record's URL |
| ImageServer.InitialDb | server.js:21-24 | a missing database file starts as an empty array; any existing file is kept |
| ImageServer.Server.constructor | server.js:21-24 | the server starts over the initial database, which then exists |
| ImageServer.Server.ListImages | server.js:39-48 | returns the stored records verbatim and in order, or 500 "Failed to read database" when the file does not parse |
| ImageServer.Server.Upload | server.js:51-83 | no file: 400 and nothing changes. Otherwise the file is stored under its generated name. The upload succeeds iff the database parses and the write succeeds; the store is then the old records plus the new one, which the response returns. Any other failure answers 500 "Failed to save to database" and leaves the store unchanged |

## Left out

- Rendering: the HTML of suggestion entries, `alt` texts, CSS classes, the upload modal and form (`handleUpload`), and the fox video and year widgets. These are presentation or network plumbing with no state the rest depends on.
- `fetchAndRenderLocalImages` in `script.js` is not part of this model. It picks layout classes at random and builds HTML strings. Its loop iterates an undefined `reversedImages`, so every call ends in its own `catch`.
- Cards added to the page after start-up: the main page's `applyFilters` re-queries `.img-card`. The model filters the fixed cards found when the gallery is built. The card set cannot change as written: `fetchAndRenderLocalImages` throws at `script.js:440` before it inserts any card (`script.js:460`) or attaches listeners (`script.js:464-469`).
- `toLowerCase` is modelled for ASCII letters only; other Unicode case mappings are not modelled.
- `localeCompare` is a total order parameter; collation ties between distinct strings are not modelled.
- The HTTP request to the wiki, and the shapes of its JSON beyond a title list and a continuation token, are parameters.
- The lost-update race between concurrent uploads, a torn or partial write of `database.json`, and multer's own errors are concurrency and I/O concerns outside a sequential model. A failed write leaves the stored value unchanged.
- A database file that parses to JSON other than an array is treated like an unparsable one (`Corrupt`). This loses one behaviour: `GET /api/images` (`server.js:41-43`) would answer 200 with that value. Only an upload fails on it, at `images.push` (`server.js:73`).
- `Date.now()` and `new Date().toISOString()` are inputs. The model does not link the millisecond count to the ISO text, or the multer time stamp to the handler's.
- UploadRules.Decimal: writes any whole number in decimal; JavaScript switches to exponent notation from 1e21 on, a time stamp far beyond any clock.
- The page markup is assumed well formed: every card has `data-keywords` and every filter button has `data-key`. Without them `card.dataset.keywords.toLowerCase()` (`script.js:163`, `imag/script.js:84`) or `btn.dataset.key.toLowerCase()` (`script.js:135`, `imag/script.js:59`) throws a TypeError part-way through the handler; the model's card keywords and button keys are always strings.
- Console logging and the Express, CORS and JSON middleware.
