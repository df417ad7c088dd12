/** Sessions driven through the two scripts' state, as clients of their
    contracts: a highlight is made on a ChatGPT conversation, stepped to,
    annotated, and the conversation favourited and reopened from the popup. */
module Scenario {

  import opened Options
  import opened JsText
  import opened ChatKey
  import opened Storage
  import opened Content
  import opened Popup

  /** Select a passage on a fresh ChatGPT page and pick a colour: one
      record, persisted under the conversation's key. */
  method HighlightSession(id: string, raw: string, idClock: nat, clock: nat)
    requires IsId(id) && SelectionAccepted(raw, true)
  {
    var store := new Store(map[]);
    var url := ChatGptUrlPrefix + id;
    ChatGptAddressKey(id);

    var page := new ChatPage(store, url);
    page.HandleTextSelection(raw, DomRange(7), true);
    assert page.selectedRange == Some(DomRange(7)) && page.popupVisible;
    ghost var text := page.selectedText;
    assert Applies(page.selectedRange, page.href, true);

    page.ClickColor(Green, idClock, clock, true, "Trip plan");
    ghost var record := NewRecord(idClock, text, Green, "", clock);
    assert page.highlights == [record];
    assert page.selectedRange == None && !page.popupVisible;
  }

  /** With one record, "Next" from the start and "Previous" both show it. */
  method NavigateSession(page: ChatPage)
    requires page.Valid() && |page.highlights| == 1 && page.currentIndex == -1
    modifies page
  {
    page.NavigateToNext();
    assert page.currentIndex == 0 && page.counterText == PositionLabel(0, 1);
    page.NavigateToPrevious();
    assert page.currentIndex == 0;
  }

  /** Edit the note of the only record through the dialog. */
  method AnnotateSession(page: ChatPage, note: string)
    requires page.Valid() && |page.highlights| == 1
    modifies page, page.store
  {
    var record := page.highlights[0];
    assert FirstWithId(page.highlights, record.id) == Some(0);
    page.ShowNoteDialog(Some(record.id), record.text);
    assert page.noteInput == record.note;
    page.TypeNote(note);
    page.ClickSaveNote(0, 0, true, "Trip plan");
    assert !page.dialogOpen && |page.highlights| == 1;
    assert page.highlights[0] == record.(note := Trim(note));
  }

  /** Leaving the conversation empties the list and resets the index. */
  method LeaveSession(page: ChatPage)
    requires page.Valid() && page.lastUrl != "https://chatgpt.com/"
    modifies page
  {
    page.HostNavigates("https://chatgpt.com/");
    page.PollUrl();
    assert page.highlights == [] && page.currentIndex == -1;
  }

  /** Favourite the current conversation and reopen it from the list. */
  method FavoriteSession() {
    var store := new Store(map[]);
    var key := "chatgpt_abc-1";
    assert IsChatKey(key) by {
      assert key[..|ChatGptTag|] == ChatGptTag && key[|ChatGptTag|..] == "abc-1";
    }
    var popup := new PopupView(store);
    popup.ReceiveChatKey(Some(key));
    assert !popup.favorited;
    popup.ToggleFavorite(Some("Trip plan"), 300);
    assert popup.favorited && popup.status == "Added to favorites";
    var target := popup.FavoriteClicked(key);
    KeyToUrlRoundTrip(key);
    assert GetChatKey(target.value) == Some(key);
    popup.ToggleFavorite(None, 400);
    assert !popup.favorited && popup.status == "Removed from favorites";
  }
}
