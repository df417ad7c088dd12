# Chat highlights and notes, modelled in Dafny

This project models the bookkeeping core of a browser extension for ChatGPT
and Gemini conversations. It has two scripts.

The page script (`content.js`):
- derives a conversation key from the page address;
- validates a text selection;
- appends highlight records, each with a colour and an optional note, to the
  page's list, and persists the list with the conversation title;
- edits a record's note through a small dialog;
- steps cyclically through the records with a counter;
- clears its state when the address changes.

The popup (`popup.js`):
- builds the address of a favourite from its key;
- counts characters and words of a note;
- keeps the favourites list: toggle, remove, membership test, drag reorder;
- groups stored keys into per-conversation summaries.

Both scripts share `chrome.storage.local`. It is modelled as one `Store`
object holding a `map<string, StoredValue>`.

Modules:
- `Options`: the `Option` datatype.
- `JsText`: the JavaScript primitives the scripts rely on.
  - `trim()` and the `\s` class share one whitespace set, the ECMAScript
    WhiteSpace and LineTerminator code points.
  - `.length` counts UTF-16 code units.
  - `${n}` and `parseInt` are written out for non-negative integers.
  - The truncating `%` operator.
  - The two counter labels.
- `ChatKey`: `getChatKey`, a pure function of the address.
  - The two regular expressions get leftmost-first semantics: the first
    position where the literal is followed by an id character, then the
    maximal run of `[a-zA-Z0-9-]`.
- `Storage`: the records, the stored values, the store, and what
  `saveHighlights` writes.
- `Content`: the class `ChatPage`.
  - Its fields are the page script's globals and the dialog's closure
    variable `currentHighlightId`.
  - Its methods are the handlers. Each method states its whole new state.
  - The pure parts (record lookup, note edit, the two index steps) are
    functions, and their properties are lemmas.
- `Popup`: the popup's pure logic, and the class `PopupView` with the
  popup's globals and visible state.
  - `loadHighlightedChats` is a method with the source's loop. It is proved
    against the function `Summaries`.
- `Scenario`: sessions written as clients of the contracts: highlight, step,
  annotate, leave, favourite and reopen.

DOM facts the code only observes are inputs to the operations:
- whether the selection lies in a message container;
- whether wrapping the range succeeded;
- the page title;
- the two `Date.now()` readings;
- the answers of the popup's messages.

## Model

| member | source | states |
|---|---|---|
| ChatKey.FirstMatchSpec | content.js:7 | The position found is where `/c/` (or `/app/`) is followed by an id character, and no earlier position from the start of the search is one; when nothing is found, no position matches. |
| ChatKey.FirstMatch | content.js:7 | The search starts from the given position, and the position it finds matches: the literal, followed by an id character. |
| ChatKey.RunEnd | content.js:7 | The greedy `+`: the run from the start consists of id characters and ends at the end of the address or at a character outside `[a-zA-Z0-9-]`. |
| ChatKey.CaptureSpec | content.js:7 | `url.match(...)` succeeds exactly when the literal occurs followed by an id character, and the group is then the maximal id run after the leftmost such occurrence. |
| ChatKey.Capture | content.js:7 | A captured group is a non-empty run of `[a-zA-Z0-9-]`. |
| ChatKey.CapturesUnique | content.js:7 | The match is deterministic: the pattern captures at most one id in a given address. |
| ChatKey.CaptureIs | content.js:13 | When `id` is the id the leftmost match captures, the regex returns exactly `id`. |
| ChatKey.CapturedIsId | content.js:7 | The captured id is non-empty and made only of `[a-zA-Z0-9-]`. |
| ChatKey.GetChatKeySpec | content.js:2-18 | There is a key exactly when a provider's host name occurs and its path pattern matches. The ChatGPT test wins: its key is `chatgpt_` plus the `/c/` capture. Otherwise Gemini's key is `gemini_` plus the `/app/` capture. Every key is a tag followed by a valid id. |
| ChatKey.GetChatKey | content.js:2-18 | Every key is a provider tag followed by a valid id, and an address naming neither host has no key. |
| ChatKey.LeftmostByEnds | content.js:7 | A match is the leftmost one when no earlier position has both the first and the last character of the literal. |
| ChatKey.NoMatchByEnds | content.js:7 | When no position has both the first and the last character of the literal, the regex does not match. |
| Storage.KeysDistinct | content.js:588-589 | A `highlights_` key, a `title_` key and `favorites` never collide. |
| Storage.PersistedWrites | content.js:587-595 | `saveHighlights` adds exactly the conversation's two keys, stores the whole list and the title there, and keeps every other key's value. |
| Storage.Persisted | content.js:587-595 | After the save, the highlights key holds the list and the title key holds the title. |
| Storage.StoredHighlights | content.js:604 | `data[storageKey]`, or the empty list: a stored highlight array is returned as it is; a missing key, or a value that is not a highlight array, gives the empty list. |
| Storage.StoredFavorites | popup.js:122 | `data.favorites`, or the empty list: a stored favourites array is returned as it is; a missing key, or a value that is not a favourites array, gives the empty list. |
| Storage.FavoritesReadBack | popup.js:122 | A favourites list written under `favorites` reads back unchanged, in order. |
| Storage.PersistThenLoad | content.js:604 | Loading after a save returns the saved list unchanged, in order. |
| Storage.PersistKeepsFavorites | content.js:591-594 | Saving a conversation leaves the favourites list untouched. |
| JsText.Trim | content.js:473 | `trim()` returns a string with no whitespace at either end, and the input is that string with whitespace added before and after. The result is empty exactly when the input is all whitespace. |
| JsText.Utf16Length | content.js:475 | `.length` is exactly the number of UTF-16 code units of the string (`Utf16Encode`: one unit per character below U+10000, a surrogate pair otherwise). It therefore lies between the number of characters and twice that, and equals the number of characters exactly when every character is in the Basic Multilingual Plane. |
| JsText.Utf16Units | content.js:475 | A character below U+10000 is one 16-bit code unit; any other is two (a surrogate pair). Every unit lies in `[0, 0x10000)`. |
| JsText.CodeUnitsFromEncode | content.js:475 | Counting code units character by character from any position gives the length of the UTF-16 encoding of the rest of the string. |
| JsText.JsRemainder | content.js:637 | JavaScript's `%` for a positive divisor: the remainder has the sign of the dividend, its magnitude is below the divisor, it is the dividend itself when the dividend is smaller than the divisor, and dividend minus remainder is a multiple of the divisor. |
| JsText.NonNegativeRemainder | content.js:637 | For a non-negative dividend, the truncating remainder lies in `[0, b)`, is the dividend below `b`, is 0 at `b`, and differs from the dividend by a multiple of `b`. |
| JsText.NegativeRemainder | content.js:637 | For a negative dividend, the truncating remainder lies in `(-b, 0]`, is the dividend above `-b`, is 0 at `-b`, and differs from the dividend by a multiple of `b`. |
| JsText.DecimalString | popup.js:105 | `${n}` is a non-empty string of digits without a leading zero (except "0"). |
| JsText.ParseDecimal | popup.js:286 | `parseInt` yields a number exactly when the string starts with a decimal digit. |
| JsText.DigitsValueOfDecimal | popup.js:286 | The decimal digits of `n` denote `n`. |
| JsText.ParseDecimalOfNumeral | popup.js:286 | `parseInt` of `${n}` followed by anything that does not start with a digit returns `n`. |
| JsText.CountLabel | content.js:631 | "1 highlight" for one record, "N highlights" for any other count, and the label reads back as the count (popup.js:348 uses the same rule). |
| JsText.PositionLabel | content.js:663 | The counter `${index + 1} / ${length}` reads back in full: `parseInt` of the label is `index + 1`, the digits of `index + 1` are followed by " / ", and `parseInt` of what follows is `length`. |
| Content.SelectionAccepted | content.js:473-490 | An accepted selection lies in a message, and its trimmed text has 1 to 500 characters, since the UTF-16 length is at least the number of characters. |
| Content.NewRecord | content.js:539-545 | The record carries the pending text, the chosen colour, the note and the second clock reading; its id reads back as the first clock reading. |
| Content.FirstWithId | content.js:562 | `find` by id: the index found holds the id, and no earlier record does; when nothing is found, no record has the id. |
| Content.NoteOf | content.js:450-451 | When some record has the id, the dialog shows the note of the first such record, as `find` returns; otherwise it shows the empty note. |
| Content.WithNote | content.js:561-565 | After `saveNote`, the list has the same length and every record keeps its id, text, colour and timestamp. The first record with the id has the new note and every other record is unchanged. An absent id leaves the list as it was. |
| Content.FirstWithIdKept | content.js:562 | Editing notes never changes which record a search by id finds. |
| Content.NoteLastWriteWins | content.js:561-565 | Saving note `b` after note `a` gives the same list as saving `b` alone. Saving the same note twice equals saving it once. |
| Content.NoteReadsBack | content.js:445-451 | After a save, reopening the dialog on that id shows the saved note, or the empty note when the id is absent. |
| Content.NextIndex | content.js:637 | From any index at or above -1 the step is exactly `(i + 1) mod n`, so it lands in `[0, n)`. It moves one place forward below the end and wraps from the last record to the first. |
| Content.PrevIndex | content.js:644 | The step is `n - 1` from any index at or below 0 (the first record and the initial -1), and one place back from any positive index. It never goes negative, and it stays in range from an in-range index. |
| Content.PrevAfterNext | content.js:634-646 | On every in-range index, Previous undoes Next. |
| Content.NextAfterPrev | content.js:634-646 | On every in-range index, Next undoes Previous. |
| Content.NextStepsCompose | content.js:637 | `a + b` presses of Next equal `a` presses followed by `b` presses. |
| Content.NextStepsLinear | content.js:637 | Below the end of the list, each press moves exactly one place. |
| Content.NextStepsCycle | content.js:637 | From an in-range index, `k <= n` presses land on `(i + k) mod n`. The first return to the start is after exactly `n` presses. |
| Content.NextFromStart | content.js:66 | From the initial index -1, the first press shows the first record, and `n` further presses return to it. |
| Content.PrevFromStart | content.js:644 | From the initial index -1, the first press of Previous shows the last record, and one press of Next after it shows the first. |
| Content.PrevPastEnd | content.js:644 | From an index at the length of a shrunk list, Previous shows the last record. From further out it moves one place back and stays past the end, on no record. |
| Content.ChatPage.constructor | content.js:65-80 | The initial globals: an empty list, index -1, no pending selection, hidden picker and widget, counter "0 / 0", dialog closed with no record. |
| Content.ChatPage.HandleTextSelection | content.js:471-496 | A selection whose trimmed text is 1 to 500 UTF-16 units long and lies in a message container becomes the pending selection and shows the picker. Any other selection only hides the picker, and the previous pending range and text stay. |
| Content.ChatPage.UpdateNavigationWidget | content.js:621-632 | The widget is shown exactly when the list is non-empty, and it then shows the count label. |
| Content.ChatPage.SaveHighlights | content.js:587-595 | The store becomes the old store with the current list and the title written under the conversation's keys. |
| Content.ChatPage.ApplyHighlight | content.js:512-559 | With a pending range, a key for the address and a successful wrap, exactly one record is appended at the end, the list is persisted, the widget shows the new count and the pending selection is cleared. Otherwise nothing changes. The index is outside the frame, so appending never moves it. |
| Content.ChatPage.AppendHighlight | content.js:547-556 | The record is pushed at the end of the list, the store then holds the whole list and the title under the conversation's keys, and the widget is shown with the new count. |
| Content.ChatPage.ClickColor | content.js:377-383 | A colour button applies that colour with no note (content.js:512-559), then hides the picker. When the three guards hold, one record is appended, the store holds the new list and title, the pending selection is cleared and the widget shows the new count. Otherwise the list, the store, the selection, the widget and the counter are unchanged. |
| Content.ChatPage.SaveNote | content.js:561-585 | The list becomes `WithNote` of the old list. It is persisted only when the id was found and the address has a key; otherwise the store is unchanged. |
| Content.ChatPage.LoadHighlights | content.js:597-619 | Without a key nothing changes. With a key the list is replaced by the stored one (empty when absent) and the widget is updated. The index is left alone. |
| Content.ChatPage.ScrollToHighlight | content.js:648-664 | For an index that names a record, the counter shows its position; any other index changes nothing. |
| Content.ChatPage.NavigateToNext | content.js:634-639 | An empty list changes nothing. Otherwise the index takes the Next step, lands on a record, and the counter shows it. |
| Content.ChatPage.NavigateToPrevious | content.js:641-646 | An empty list changes nothing. Otherwise the index takes the Previous step, and the counter is updated when the new index names a record. |
| Content.ChatPage.ShowNoteDialog | content.js:445-459 | The dialog opens for the given record, or for the pending selection with no record. The textarea holds that record's note, or is empty. |
| Content.ChatPage.ClickNoteButton | content.js:385-388 | The picker hides and the dialog opens for the pending text with an empty note. |
| Content.ChatPage.TypeNote | content.js:420 | The textarea holds what was typed. |
| Content.ChatPage.HideNoteDialog | content.js:461-465 | The dialog closes and `currentHighlightId` becomes null. |
| Content.ChatPage.ClickSaveNote | content.js:433-443 | The textarea is trimmed and the dialog closes with no record. For a record, the list becomes `WithNote` with the trimmed note, and the store is rewritten only when the id was found and the page has a key. The selection, widget and counter are kept. With no record, a yellow highlight with that note is applied: when the guards hold, one record is appended and persisted, the selection is cleared and the widget shows the count. When they fail, nothing but the dialog changes. |
| Content.ChatPage.HostNavigates | content.js:3 | The page address changes. |
| Content.ChatPage.PollUrl | content.js:686-695 | On an address change, the list is emptied and the index reset to -1. With no change, nothing changes. |
| Popup.KeyToUrl | popup.js:202-209 | There is no address exactly when the key has neither provider tag. |
| Popup.ChatGptAddressKey | popup.js:205 | `getChatKey` of `https://chatgpt.com/c/<id>` is `chatgpt_<id>`. |
| Popup.ChatGptAddressCaptures | popup.js:205 | That address names the ChatGPT host, and its `/c/` pattern captures exactly the id. |
| Popup.GeminiAddressKey | popup.js:208 | `getChatKey` of `https://gemini.google.com/app/<id>` is `gemini_<id>`: the ChatGPT test does not fire and the Gemini one captures the id. |
| Popup.GeminiAddressNoChatGptPath | popup.js:208 | A Gemini address has no `/c/` followed by an id. |
| Popup.GeminiAddressCaptures | popup.js:208 | That address names the Gemini host, and its `/app/` pattern captures exactly the id. |
| Popup.PrefixCaptures | popup.js:202-209 | An address built from a fixed prefix, which holds the host and ends in the path literal with no earlier occurrence of that literal, followed by an id, contains the host and captures the id. |
| Popup.KeyToUrlRoundTrip | popup.js:202-214 | Every key `getChatKey` can produce leads to an address from which `getChatKey` reads back the same key. |
| Popup.CanonicalAddress | popup.js:202-214 | Any conversation address, whatever its host spelling or query part, leads to a canonical address with the same key. |
| Popup.WordEnd | popup.js:103 | The run from the start has no whitespace and ends at the end of the string or at whitespace. |
| Popup.WordsAreRuns | popup.js:103 | Every word is a non-empty run with no whitespace. |
| Popup.SplitOnWhitespace | popup.js:103 | `split(/\s+/)` always returns at least one piece. |
| Popup.WordsSkipSpace | popup.js:103 | Leading whitespace adds no words. |
| Popup.WordsDropTrailing | popup.js:103 | Trailing whitespace adds no words. |
| Popup.SplitIsWords | popup.js:103 | On a trimmed, non-empty string, `split(/\s+/)` returns exactly its maximal non-whitespace runs, in order. |
| Popup.WordsPastFirst | popup.js:103 | The words of a string that starts with a word are that word, then the words after the whitespace that follows it. |
| Popup.WordsOfTrim | popup.js:103 | Trimming does not change the words. |
| Popup.WordsOfPadded | popup.js:103 | Whitespace added around a string adds no words. |
| Popup.WordCountIsWords | popup.js:103 | The word count is the number of maximal non-whitespace runs, and it is 0 exactly when the text is all whitespace. |
| Popup.WordCount | popup.js:103 | The word count is 0 exactly when the text is all whitespace. |
| Popup.UpdateCounts | popup.js:100-107 | "N characters" reads back as the text's UTF-16 length. "N words" reads back as the number of words, and it is "0 words" for blank text. |
| Popup.FindFavorite | popup.js:123 | `findIndex`: -1 exactly when no entry has the key; otherwise the index of the first entry with it. |
| Popup.FavoritedIffFound | popup.js:156 | `favorites.some(...)` (popup.js:156) and `findIndex(...) > -1` (popup.js:123) agree on whether a key is a favourite. |
| Popup.FavoriteTitle | popup.js:134 | The answered title when it is non-empty; when the answer is missing or empty, exactly "Untitled Chat". |
| Popup.Toggled | popup.js:118-151 | When the key is present, the first entry with it is removed and the others keep their order. When it is absent, `{key, title or "Untitled Chat", now}` is appended and the length grows by one. |
| Popup.ToggleFlips | popup.js:118-151 | Toggling keeps keys unique, and on such a list it flips whether the key is a favourite. |
| Popup.ToggleTwiceRestores | popup.js:118-151 | Adding a favourite and toggling it again restores the original list. |
| Popup.WithoutSpec | popup.js:233 | After `filter`, no entry has the key, the remaining entries are exactly the others, and the list is no longer. |
| Popup.Without | popup.js:233 | The filtered list is no longer than the original, and it keeps its length exactly when no entry has the key. |
| Popup.WithoutConcat | popup.js:233 | Filtering works piece by piece, so the kept entries keep their original order. |
| Popup.WithoutAbsent | popup.js:233 | A list with no entry for the key is left as it is. |
| Popup.RemoveIsToggleOff | popup.js:233 | With unique keys, the remove button stores the same list as untoggling with `splice` (popup.js:126). |
| Popup.Reordered | popup.js:290 | The reordered list has one entry per index in the new order. |
| Popup.PermutationInRange | popup.js:285-290 | A permutation of `0..n-1` has length `n` and only in-range entries. |
| Popup.ReorderedConcat | popup.js:290 | Mapping a concatenated order is concatenating the mapped pieces. |
| Popup.ReorderedRemove | popup.js:290 | Taking one index out of the order takes its entry out of the result (as multisets). |
| Popup.ReorderedSameIndices | popup.js:290 | Two orders that list the same indices pick the same entries (as multisets). |
| Popup.ReorderIsPermutation | popup.js:285-291 | When the new order is a permutation of `0..n-1`, the reordered list has length `n` and is a permutation of the favourites. |
| Popup.DataIndexRoundTrip | popup.js:286 | `parseInt` of the rendered `data-index="${index}"` (popup.js:178) returns the index as it was last rendered. |
| Popup.StaleSecondDrag | popup.js:282-293 | Two drags in a row on `[a, b, c]` with no re-render between them: the second drag stores `[a, b, c]` while the screen shows `[b, c, a]`. |
| Popup.SummaryTitle | popup.js:331 | The title is the stored non-empty `title_<chatKey>` string, or the chat key. |
| Popup.SummaryFor | popup.js:322-333 | A key yields a summary exactly when it starts with `highlights_` and holds a non-empty array. The summary's chat key is the key without the prefix, its count is the array length, and its title is `SummaryTitle`. |
| Popup.Summaries | popup.js:317-335 | There are never more summaries than keys. |
| Popup.SummariesSound | popup.js:321-335 | Every summary listed comes from one of the enumerated keys. |
| Popup.SummariesComplete | popup.js:321-335 | Every enumerated key that qualifies has its summary listed. |
| Popup.SummariesDistinct | popup.js:321-335 | Distinct keys give summaries of distinct chats. |
| Popup.LoadHighlightedChats | popup.js:317-335 | The loop builds `Summaries` in key order. A summary is listed exactly when some stored key yields it, and no chat is listed twice, since `for...in` lists each key once. |
| Popup.SummaryOfPersisted | popup.js:331 | What `saveHighlights` writes is listed with the list's length and the saved title, or the key when the title is empty (content.js:587-595 writes it). |
| Popup.PopupView.constructor | popup.js:18-19 | The popup starts with no current chat and an unset favourite button. |
| Popup.PopupView.ReceiveChatKey | popup.js:37-58 | With no key, the status asks for a chat and nothing else changes. With a key, that key becomes current, the button shows its membership, and the status is "Ready". |
| Popup.PopupView.LoadFavoriteStatus | popup.js:153-165 | The button shows "favourite" exactly when some entry has the current key. |
| Popup.PopupView.ToggleFavorite | popup.js:118-151 | With no current chat nothing changes. Otherwise the favourites key holds `Toggled` of the stored list, the button flips, and the status says which way. |
| Popup.PopupView.RemoveFavorite | popup.js:230-243 | The favourites key holds the filtered list, and the button is cleared when the removed key is the current chat. |
| Popup.PopupView.HandleDragEnd | popup.js:282-293 | The favourites key holds the stored list mapped through the new order. |
| Popup.PopupView.FavoriteClicked | popup.js:202-214 | The address opened is `KeyToUrl` of the key, and the status says "Navigating to chat..." exactly when there is one. |

## Behaviour of the code worth knowing

These points are what the code does, and the model states them:

- **Rejected selections.** A rejected selection only hides the picker. The
  earlier `selectedRange`/`selectedText` stay (content.js:475-490), and a
  later colour click can still apply them. `HandleTextSelection` states this.
- **Record ids.** Ids are `Date.now().toString()` (content.js:521), which
  two quick highlights can share. The model takes the clock as a parameter
  and allows repeats. The search by id finds the first record
  (`FirstWithId`), as `find` does.
- **Index range.** `loadHighlights` replaces the list without resetting the
  index (content.js:604), so the index can exceed the list. `ChatPage.Valid`
  is therefore only `currentIndex >= -1`. After such a reload,
  `NavigateToPrevious` may land on no record, and then the counter is not
  updated.
- **No repaint.** After a reload the code only re-attaches click listeners
  to spans that still exist (content.js:607-615). It never wraps stored
  records in the page again. The model has no anchors and no repaint.
- **Length unit.** The 500 limit is in UTF-16 code units (`.length`), not
  characters, so a selection of 300 emoji is rejected.
- **Dialog save default.** Saving a note with no record applies the fixed
  colour yellow (content.js:439).
- **Stale drag indices.** `handleDragEnd` stores the reordered list but does
  not call `loadFavorites` (popup.js:282-293). The items keep the
  `data-index` values of the last rendering, and a second drag applies those
  values to the already reordered list. `StaleSecondDrag` shows a case where
  the stored order then differs from the order on screen.

## Left out

- DOM construction, CSS, the picker's position, `scrollIntoView`, the flash
  animation and HTML escaping are presentation only. The model keeps which
  elements are visible and the counter and label texts.
- `getChatTitle` (content.js:20-40) queries the DOM. The title is a
  parameter.
- The range operations `deleteContents`/`insertNode` (content.js:530-536)
  are DOM operations. Only whether they succeeded is an input. The span, its
  note glyph and its click listener are not modelled.
- The page's click listener on a span (content.js:551-554, 610-613) only
  calls `showNoteDialog`, which is modelled as `ShowNoteDialog`.
- `saveNote`'s DOM update of the span (content.js:567-579) is presentation
  only.
- The message listener (content.js:43-59) and `chrome.tabs`/`chrome.runtime`
  messaging (popup.js:29-36, 52-56, 131, 199-200, 381-395) are asynchronous
  browser APIs. Their answers are parameters: the key reply in
  `ReceiveChatKey`, the title reply in `ToggleFavorite`. A missing tab
  ("No active tab found", popup.js:30-33) is not modelled.
- Asynchrony and timers: the 1000 ms poll, the 1000 ms and 500 ms reload
  delays (content.js:682-695), and storage callbacks. Each handler runs as
  one atomic step. The delayed reload is a separate call to
  `LoadHighlights`. Interleavings, overlapping reloads, cross-tab writes and
  storage failures are not modelled.
- The popup's note box: `loadNote` and the input handler that stores the
  note under the chat key (popup.js:83-98). This is glue around
  `updateCounts`, so `UpdateCounts` takes the text as input.
- `loadFavorites` rendering (popup.js:168-189): only the `data-index`
  round trip is modelled (`DataIndexRoundTrip`).
- `showHighlightDetails` (popup.js:360-378), the Highlights tab HTML
  (popup.js:337-357), tab switching and the sidebar toggle are display only.
- Drag geometry (`getDragAfterElement`, `handleDragOver`, popup.js:265-308)
  is floating-point DOM layout. `HandleDragEnd` takes the parsed new order
  as input.
- The textarea and favourite button `disabled` flags, the chat title element
  and the ★/☆ glyphs are presentation. `favorited` stands for the glyph.
- Stored values are strings, highlight arrays or favourite arrays
  (`StoredValue`). The code's `x || []` and `x || chatKey` would keep some
  other truthy value. The model reads any value of the wrong kind as absent.
- Popup.PopupView.HandleDragEnd: requires every index of the new order to be
  in range. In the code, an out-of-range index would store `undefined`
  entries. The indices are `data-index` values of the last rendering.
  Reordering keeps the list's length, so they stay below it. A removal does
  render again. A favourite added or removed in another window between two
  renderings could still leave an index out of range; that case is not
  modelled.
- JsText.ParseDecimal: reads only a leading run of decimal digits. Signs,
  leading whitespace and other radixes of `parseInt` never occur on the
  rendered indices.
- Popup.LoadHighlightedChats: the `for...in` enumeration order of the stored
  keys is a parameter. It must list every key of the store, only those, and
  each once, as `for...in` does.
