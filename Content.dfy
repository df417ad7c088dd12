/** The page-side engine (content.js): selection capture, the highlight
    list with its note edits, cyclic navigation, the note dialog and the
    reset on a change of address. The DOM is replaced by abstract inputs:
    whether a selection lies in a message container, whether wrapping the
    range succeeded, the page title, and the two `Date.now()` readings. */
module Content {

  import opened Options
  import opened JsText
  import opened ChatKey
  import opened Storage

  /** The longest trimmed selection that is offered for highlighting. */
  const MaxSelectionLength := 500

  /** An opaque handle on a live DOM `Range`. */
  datatype DomRange = DomRange(handle: nat)

  /** `handleTextSelection`'s two tests: trimmed length (in UTF-16 code
      units) within 1..500, and a message container around the selection. */
  predicate SelectionAccepted(raw: string, inMessage: bool)
    ensures SelectionAccepted(raw, inMessage) ==> inMessage && 0 < |Trim(raw)| <= MaxSelectionLength
  {
    0 < Utf16Length(Trim(raw)) <= MaxSelectionLength && inMessage
  }

  /** The record `applyHighlight` builds: the id is the first clock
      reading as a decimal string, the timestamp a second reading. */
  function NewRecord(idClock: nat, text: string, color: Color, note: string, clock: nat): (h: Highlight)
    ensures h.text == text && h.color == color && h.note == note && h.timestamp == clock
    ensures ParseDecimal(h.id) == Some(idClock)
  {
    ParseDecimalOfNumeral(idClock, "");
    assert DecimalString(idClock) + "" == DecimalString(idClock);
    Highlight(DecimalString(idClock), text, color, note, clock)
  }

  // ---------------------------------------------------------------------
  // Finding and editing a record by id

  /** `highlights.find(h => h.id === id)`, as an index. */
  function FirstWithId(hs: seq<Highlight>, id: string, from: nat := 0): (r: Option<nat>)
    requires from <= |hs|
    ensures r.Some? ==> from <= r.value < |hs| && hs[r.value].id == id
    ensures r.Some? ==> forall j :: from <= j < r.value ==> hs[j].id != id
    ensures r.None? ==> forall j :: from <= j < |hs| ==> hs[j].id != id
    decreases |hs| - from
  {
    if from == |hs| then None
    else if hs[from].id == id then Some(from)
    else FirstWithId(hs, id, from + 1)
  }

  /** `highlight?.note || ''` in `showNoteDialog`. */
  function NoteOf(hs: seq<Highlight>, id: string): (note: string)
    ensures note != "" ==> exists j :: 0 <= j < |hs| && hs[j].id == id && hs[j].note == note
    ensures FirstWithId(hs, id).Some? ==> note == hs[FirstWithId(hs, id).value].note
    ensures FirstWithId(hs, id).None? ==> note == ""
  {
    match FirstWithId(hs, id)
    case Some(i) => hs[i].note
    case None => ""
  }

  /** All of a record but its note. */
  predicate SameButNote(a: Highlight, b: Highlight) {
    a.id == b.id && a.text == b.text && a.color == b.color && a.timestamp == b.timestamp
  }

  /** The list after `saveNote(id, note)`: the first record with that id
      carries the new note, and nothing else differs. */
  function WithNote(hs: seq<Highlight>, id: string, note: string): (r: seq<Highlight>)
    ensures |r| == |hs|
    ensures forall j :: 0 <= j < |hs| ==> SameButNote(r[j], hs[j])
    ensures FirstWithId(hs, id).None? ==> r == hs
    ensures FirstWithId(hs, id).Some? ==>
              var i := FirstWithId(hs, id).value;
              r[i].note == note && forall j :: 0 <= j < |hs| && j != i ==> r[j] == hs[j]
  {
    match FirstWithId(hs, id)
    case None => hs
    case Some(i) => hs[i := hs[i].(note := note)]
  }

  /** Editing notes never moves or renames a record, so the same record is
      found afterwards. */
  lemma {:induction false} FirstWithIdKept(hs: seq<Highlight>, r: seq<Highlight>, id: string, from: nat)
    requires |r| == |hs| && from <= |hs|
    requires forall j :: 0 <= j < |hs| ==> SameButNote(r[j], hs[j])
    ensures FirstWithId(r, id, from) == FirstWithId(hs, id, from)
    decreases |hs| - from
  {
    if from < |hs| { FirstWithIdKept(hs, r, id, from + 1); }
  }

  /** The last note saved is the one that stays: saving `b` after `a` is
      saving `b`; in particular saving the same note twice is saving it once. */
  lemma NoteLastWriteWins(hs: seq<Highlight>, id: string, a: string, b: string)
    ensures WithNote(WithNote(hs, id, a), id, b) == WithNote(hs, id, b)
  {
    var once := WithNote(hs, id, a);
    FirstWithIdKept(hs, once, id, 0);
  }

  /** After a save, the dialog shows the saved note for that id (or the
      empty note, which is what it shows for an id it does not find). */
  lemma NoteReadsBack(hs: seq<Highlight>, id: string, note: string)
    ensures NoteOf(WithNote(hs, id, note), id) == (if FirstWithId(hs, id).Some? then note else "")
  {
    FirstWithIdKept(hs, WithNote(hs, id, note), id, 0);
  }

  // ---------------------------------------------------------------------
  // Navigation

  /** `(i + 1) % n` with JavaScript's remainder. */
  function NextIndex(i: int, n: nat): (r: int)
    requires n > 0
    ensures i >= -1 ==> 0 <= r < n && r == (i + 1) % n
    ensures -1 <= i < n - 1 ==> r == i + 1
    ensures i == n - 1 ==> r == 0
  {
    JsRemainder(i + 1, n)
  }

  /** `i <= 0 ? n - 1 : i - 1`. */
  function PrevIndex(i: int, n: nat): (r: int)
    requires n > 0
    ensures r >= 0
    ensures 0 <= i < n ==> 0 <= r < n
    ensures i == 0 ==> r == n - 1
    ensures i <= 0 ==> r == n - 1
    ensures i > 0 ==> r == i - 1
  {
    if i <= 0 then n - 1 else i - 1
  }

  /** From the initial index -1 the first "Previous" shows the last
      highlight, and one "Next" after it shows the first. */
  lemma PrevFromStart(n: nat)
    requires n > 0
    ensures PrevIndex(-1, n) == n - 1
    ensures NextIndex(PrevIndex(-1, n), n) == 0
  {
  }

  /** After a reload has shrunk the list below the index, "Previous" from
      the length lands on the last highlight, and from further out it
      stays past the end, on no highlight. */
  lemma PrevPastEnd(i: int, n: nat)
    requires n > 0 && i >= n
    ensures i == n ==> PrevIndex(i, n) == n - 1
    ensures i > n ==> PrevIndex(i, n) == i - 1 && PrevIndex(i, n) >= n
  {
  }

  /** Backward undoes forward on every in-range index. */
  lemma PrevAfterNext(i: int, n: nat)
    requires 0 <= i < n
    ensures PrevIndex(NextIndex(i, n), n) == i
  {
  }

  /** Forward undoes backward on every in-range index. */
  lemma NextAfterPrev(i: int, n: nat)
    requires 0 <= i < n
    ensures NextIndex(PrevIndex(i, n), n) == i
  {
  }

  /** `k` presses of "Next" starting from index `i`. */
  function NextSteps(k: nat, i: int, n: nat): int
    requires n > 0
  {
    if k == 0 then i else NextIndex(NextSteps(k - 1, i, n), n)
  }

  lemma {:induction false} NextStepsCompose(a: nat, b: nat, i: int, n: nat)
    requires n > 0
    ensures NextSteps(a + b, i, n) == NextSteps(b, NextSteps(a, i, n), n)
    decreases b
  {
    if b > 0 { NextStepsCompose(a, b - 1, i, n); }
  }

  /** Below the end of the list each press moves one place on. */
  lemma {:induction false} NextStepsLinear(k: nat, i: int, n: nat)
    requires n > 0 && -1 <= i && i + k < n
    ensures NextSteps(k, i, n) == i + k
    decreases k
  {
    if k > 0 { NextStepsLinear(k - 1, i, n); }
  }

  /** Cyclicity: from an in-range index, `k <= n` presses land on
      `(i + k) mod n`, so the first return to `i` is after exactly `n`. */
  lemma NextStepsCycle(k: nat, i: int, n: nat)
    requires 0 <= i < n && k <= n
    ensures NextSteps(k, i, n) == if i + k < n then i + k else i + k - n
    ensures NextSteps(k, i, n) == i <==> k == 0 || k == n
  {
    if i + k >= n {
      NextStepsLinear(n - 1 - i, i, n);
      assert NextSteps(n - i, i, n) == 0;
      NextStepsCompose(n - i, k - (n - i), i, n);
      NextStepsLinear(k - (n - i), 0, n);
    } else {
      NextStepsLinear(k, i, n);
    }
  }

  /** From the initial index -1 the first press shows the first highlight,
      and `n` further presses come back to it. */
  lemma NextFromStart(n: nat)
    requires n > 0
    ensures NextSteps(1, -1, n) == 0
    ensures NextSteps(n + 1, -1, n) == 0
  {
    NextStepsCompose(1, n, -1, n);
    NextStepsCycle(n, 0, n);
  }

  /** The three guards of `applyHighlight`: a pending range, a
      conversation key for the address, and a successful wrap. */
  predicate Applies(range: Option<DomRange>, url: string, insertOk: bool) {
    range.Some? && GetChatKey(url).Some? && insertOk
  }

  // ---------------------------------------------------------------------
  // The engine's state

  /** The content script's module-level variables and the closure
      variable `currentHighlightId` of the note dialog, with the visible
      state of the picker, the navigation widget and the dialog. */
  class ChatPage {
    const store: Store
    var href: string                       // location.href
    var lastUrl: string
    var highlights: seq<Highlight>
    var currentIndex: int
    var selectedRange: Option<DomRange>
    var selectedText: string
    var popupVisible: bool                 // the colour picker
    var widgetVisible: bool                // the navigation widget
    var counterText: string                // #highlight-counter
    var dialogOpen: bool
    var currentHighlightId: Option<string>
    var dialogText: string                 // the quoted highlight text
    var noteInput: string                  // the textarea's value

    /** The index is never below -1. It may exceed the list, since a reload
        replaces the list without resetting the index. */
    ghost predicate Valid()
      reads this
    {
      currentIndex >= -1
    }

    constructor (store: Store, href: string)
      ensures Valid()
      ensures this.store == store && this.href == href && lastUrl == href
      ensures highlights == [] && currentIndex == -1
      ensures selectedRange == None && selectedText == ""
      ensures !popupVisible && !widgetVisible && counterText == "0 / 0"
      ensures !dialogOpen && currentHighlightId == None && dialogText == "" && noteInput == ""
    {
      this.store := store;
      this.href := href;
      lastUrl := href;
      highlights := [];
      currentIndex := -1;
      selectedRange := None;
      selectedText := "";
      popupVisible := false;
      widgetVisible := false;
      counterText := "0 / 0";
      dialogOpen := false;
      currentHighlightId := None;
      dialogText := "";
      noteInput := "";
    }

    /** `handleTextSelection`: an accepted selection becomes the pending one
        and shows the picker; a rejected one only hides the picker. */
    method HandleTextSelection(raw: string, range: DomRange, inMessage: bool)
      requires Valid()
      modifies this`selectedRange, this`selectedText, this`popupVisible
      ensures Valid()
      ensures SelectionAccepted(raw, inMessage) ==>
                selectedRange == Some(range) && selectedText == Trim(raw) && popupVisible
      ensures !SelectionAccepted(raw, inMessage) ==>
                selectedRange == old(selectedRange) && selectedText == old(selectedText) && !popupVisible
    {
      var text := Trim(raw);
      var length := Utf16Length(text);
      if length == 0 || length > MaxSelectionLength {
        assert !SelectionAccepted(raw, inMessage);
        popupVisible := false;
        return;
      }
      if !inMessage {
        popupVisible := false;
        return;
      }
      assert SelectionAccepted(raw, inMessage);
      selectedRange := Some(range);
      selectedText := text;
      popupVisible := true;
    }

    /** `updateNavigationWidget`: hidden for an empty list, otherwise shown
        with the "N highlights" label. */
    method UpdateNavigationWidget()
      requires Valid()
      modifies this`widgetVisible, this`counterText
      ensures Valid()
      ensures widgetVisible == (|highlights| > 0)
      ensures counterText == if |highlights| > 0 then CountLabel(|highlights|) else old(counterText)
    {
      if |highlights| == 0 {
        widgetVisible := false;
        return;
      }
      widgetVisible := true;
      counterText := CountLabel(|highlights|);
    }

    /** `saveHighlights`: the whole list and the title under the
        conversation's keys. */
    method SaveHighlights(chatKey: string, title: string)
      modifies store`data
      ensures store.data == Persisted(old(store.data), chatKey, highlights, title)
    {
      store.data := Persisted(store.data, chatKey, highlights, title);
    }

    /** `applyHighlight(color, note)`. Nothing happens without a pending
        range, without a conversation key, or when wrapping the range
        fails; otherwise one record is appended, the list is persisted,
        the widget shows the new count and the pending selection is cleared. */
    method ApplyHighlight(color: Color, note: string, idClock: nat, clock: nat, insertOk: bool, title: string)
      requires Valid()
      modifies this`highlights, this`selectedRange, this`selectedText
      modifies this`widgetVisible, this`counterText, store`data
      ensures Valid()
      ensures Applies(old(selectedRange), href, insertOk) ==>
                && highlights == old(highlights) + [NewRecord(idClock, old(selectedText), color, note, clock)]
                && store.data == Persisted(old(store.data), GetChatKey(href).value, highlights, title)
                && selectedRange == None && selectedText == ""
                && widgetVisible && counterText == CountLabel(|highlights|)
      ensures !Applies(old(selectedRange), href, insertOk) ==>
                && highlights == old(highlights) && store.data == old(store.data)
                && selectedRange == old(selectedRange) && selectedText == old(selectedText)
                && widgetVisible == old(widgetVisible) && counterText == old(counterText)
    {
      if !Applies(selectedRange, href, insertOk) {
        return;
      }
      var highlight := NewRecord(idClock, selectedText, color, note, clock);
      AppendHighlight(highlight, GetChatKey(href).value, title);
      selectedRange := None;
      selectedText := "";
    }

    /** The success path of `applyHighlight`: push the record, persist the
        list and show the new count. */
    method AppendHighlight(highlight: Highlight, chatKey: string, title: string)
      requires Valid()
      modifies this`highlights, this`widgetVisible, this`counterText, store`data
      ensures Valid()
      ensures highlights == old(highlights) + [highlight]
      ensures store.data == Persisted(old(store.data), chatKey, highlights, title)
      ensures widgetVisible && counterText == CountLabel(|highlights|)
    {
      highlights := highlights + [highlight];
      SaveHighlights(chatKey, title);
      UpdateNavigationWidget();
    }

    /** A colour button: apply with no note, then hide the picker. */
    method ClickColor(color: Color, idClock: nat, clock: nat, insertOk: bool, title: string)
      requires Valid()
      modifies this`highlights, this`selectedRange, this`selectedText, this`popupVisible
      modifies this`widgetVisible, this`counterText, store`data
      ensures Valid() && !popupVisible
      ensures Applies(old(selectedRange), href, insertOk) ==>
                && highlights == old(highlights) + [NewRecord(idClock, old(selectedText), color, "", clock)]
                && store.data == Persisted(old(store.data), GetChatKey(href).value, highlights, title)
                && selectedRange == None && selectedText == ""
                && widgetVisible && counterText == CountLabel(|highlights|)
      ensures !Applies(old(selectedRange), href, insertOk) ==>
                && highlights == old(highlights) && store.data == old(store.data)
                && selectedRange == old(selectedRange) && selectedText == old(selectedText)
                && widgetVisible == old(widgetVisible) && counterText == old(counterText)
    {
      ApplyHighlight(color, "", idClock, clock, insertOk, title);
      popupVisible := false;
    }

    /** `saveNote(id, note)`: the first record with that id gets the note;
        the list is persisted only when the id was found and the page
        has a conversation key. */
    method SaveNote(id: string, note: string, title: string)
      requires Valid()
      modifies this`highlights, store`data
      ensures Valid()
      ensures highlights == WithNote(old(highlights), id, note)
      ensures store.data == if FirstWithId(old(highlights), id).Some? && GetChatKey(href).Some?
                            then Persisted(old(store.data), GetChatKey(href).value, highlights, title)
                            else old(store.data)
    {
      var found := FirstWithId(highlights, id);
      if found.None? {
        return;
      }
      var i := found.value;
      highlights := highlights[i := highlights[i].(note := note)];
      var chatKey := GetChatKey(href);
      if chatKey.Some? {
        SaveHighlights(chatKey.value, title);
      }
    }

    /** `loadHighlights` with its storage callback as one step: the list is
        replaced by the stored one (or emptied); the index is left alone. */
    method LoadHighlights()
      requires Valid()
      modifies this`highlights, this`widgetVisible, this`counterText
      ensures Valid()
      ensures GetChatKey(href).None? ==>
                highlights == old(highlights) && widgetVisible == old(widgetVisible) && counterText == old(counterText)
      ensures GetChatKey(href).Some? ==>
                && highlights == StoredHighlights(store.data, GetChatKey(href).value)
                && widgetVisible == (|highlights| > 0)
                && counterText == if |highlights| > 0 then CountLabel(|highlights|) else old(counterText)
    {
      var chatKey := GetChatKey(href);
      if chatKey.None? {
        return;
      }
      highlights := StoredHighlights(store.data, chatKey.value);
      UpdateNavigationWidget();
    }

    /** `scrollToHighlight(index)`: the counter shows the position of an
        existing record; an index with no record changes nothing. */
    method ScrollToHighlight(index: int)
      requires Valid()
      modifies this`counterText
      ensures Valid()
      ensures counterText == if 0 <= index < |highlights| then PositionLabel(index, |highlights|) else old(counterText)
    {
      if !(0 <= index < |highlights|) {
        return;
      }
      counterText := PositionLabel(index, |highlights|);
    }

    /** `navigateToNext`. */
    method NavigateToNext()
      requires Valid()
      modifies this`currentIndex, this`counterText
      ensures Valid()
      ensures |highlights| == 0 ==> currentIndex == old(currentIndex) && counterText == old(counterText)
      ensures |highlights| > 0 ==>
                && currentIndex == NextIndex(old(currentIndex), |highlights|)
                && 0 <= currentIndex < |highlights|
                && counterText == PositionLabel(currentIndex, |highlights|)
    {
      if |highlights| == 0 {
        return;
      }
      currentIndex := NextIndex(currentIndex, |highlights|);
      ScrollToHighlight(currentIndex);
    }

    /** `navigateToPrevious`. When a reload left the index past the end,
        the step lands on no record and the counter is not updated. */
    method NavigateToPrevious()
      requires Valid()
      modifies this`currentIndex, this`counterText
      ensures Valid()
      ensures |highlights| == 0 ==> currentIndex == old(currentIndex) && counterText == old(counterText)
      ensures |highlights| > 0 ==>
                && currentIndex == PrevIndex(old(currentIndex), |highlights|)
                && counterText == if currentIndex < |highlights|
                                  then PositionLabel(currentIndex, |highlights|)
                                  else old(counterText)
    {
      if |highlights| == 0 {
        return;
      }
      currentIndex := PrevIndex(currentIndex, |highlights|);
      ScrollToHighlight(currentIndex);
    }

    /** `showNoteDialog(highlightId, text)`: opens the dialog for a record
        (`Some`) or for the pending selection (`None`), with the textarea
        pre-filled with the record's note or left empty. */
    method ShowNoteDialog(highlightId: Option<string>, text: string)
      requires Valid()
      modifies this`currentHighlightId, this`dialogText, this`noteInput, this`dialogOpen
      ensures Valid()
      ensures currentHighlightId == highlightId && dialogText == text && dialogOpen
      ensures noteInput == if highlightId.Some? then NoteOf(highlights, highlightId.value) else ""
    {
      currentHighlightId := highlightId;
      dialogText := text;
      if highlightId.Some? {
        noteInput := NoteOf(highlights, highlightId.value);
      } else {
        noteInput := "";
      }
      dialogOpen := true;
    }

    /** The note button of the picker: hide the picker, open the dialog for
        the pending selection. */
    method ClickNoteButton()
      requires Valid()
      modifies this`popupVisible, this`currentHighlightId, this`dialogText, this`noteInput, this`dialogOpen
      ensures Valid()
      ensures !popupVisible && dialogOpen && currentHighlightId == None
      ensures dialogText == selectedText && noteInput == ""
    {
      popupVisible := false;
      ShowNoteDialog(None, selectedText);
    }

    /** The user edits the textarea. */
    method TypeNote(s: string)
      requires Valid()
      modifies this`noteInput
      ensures Valid() && noteInput == s
    {
      noteInput := s;
    }

    /** `hideNoteDialog` (Cancel, or a click on the overlay). */
    method HideNoteDialog()
      requires Valid()
      modifies this`dialogOpen, this`currentHighlightId
      ensures Valid() && !dialogOpen && currentHighlightId == None
    {
      dialogOpen := false;
      currentHighlightId := None;
    }

    /** The dialog's Save button: the trimmed note goes to the record being
        edited, or, with no record, creates a yellow highlight of the
        pending selection; either way the dialog closes. */
    method ClickSaveNote(idClock: nat, clock: nat, insertOk: bool, title: string)
      requires Valid()
      modifies this`highlights, this`selectedRange, this`selectedText
      modifies this`widgetVisible, this`counterText, store`data
      modifies this`dialogOpen, this`currentHighlightId
      ensures Valid() && !dialogOpen && currentHighlightId == None
      ensures old(currentHighlightId).Some? ==>
                && highlights == WithNote(old(highlights), old(currentHighlightId).value, Trim(old(noteInput)))
                && store.data == (if FirstWithId(old(highlights), old(currentHighlightId).value).Some? && GetChatKey(href).Some?
                                  then Persisted(old(store.data), GetChatKey(href).value, highlights, title)
                                  else old(store.data))
                && selectedRange == old(selectedRange) && selectedText == old(selectedText)
                && widgetVisible == old(widgetVisible) && counterText == old(counterText)
      ensures old(currentHighlightId).None? && Applies(old(selectedRange), href, insertOk) ==>
                && highlights == old(highlights) + [NewRecord(idClock, old(selectedText), Yellow, Trim(old(noteInput)), clock)]
                && store.data == Persisted(old(store.data), GetChatKey(href).value, highlights, title)
                && selectedRange == None && selectedText == ""
                && widgetVisible && counterText == CountLabel(|highlights|)
      ensures old(currentHighlightId).None? && !Applies(old(selectedRange), href, insertOk) ==>
                && highlights == old(highlights) && store.data == old(store.data)
                && selectedRange == old(selectedRange) && selectedText == old(selectedText)
                && widgetVisible == old(widgetVisible) && counterText == old(counterText)
    {
      var note := Trim(noteInput);
      if currentHighlightId.Some? {
        SaveNote(currentHighlightId.value, note, title);
      } else {
        ApplyHighlight(Yellow, note, idClock, clock, insertOk, title);
      }
      HideNoteDialog();
    }

    /** The host page moves to another address. */
    method HostNavigates(url: string)
      requires Valid()
      modifies this`href
      ensures Valid() && href == url
    {
      href := url;
    }

    /** One tick of the address poll: on a change the list is emptied and
        the index reset (the delayed reload is a separate `LoadHighlights`). */
    method PollUrl()
      requires Valid()
      modifies this`lastUrl, this`highlights, this`currentIndex
      ensures Valid() && lastUrl == href
      ensures href != old(lastUrl) ==> highlights == [] && currentIndex == -1
      ensures href == old(lastUrl) ==> highlights == old(highlights) && currentIndex == old(currentIndex)
    {
      if href != lastUrl {
        lastUrl := href;
        highlights := [];
        currentIndex := -1;
      }
    }
  }
}
