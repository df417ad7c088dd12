/** The records the extension keeps in `chrome.storage.local`, and the
    store itself as one mutable map from key to value. */
module Storage {

  /** The five colours of the highlight picker (`COLORS` in content.js). */
  datatype Color = Yellow | Green | Blue | Pink | Purple

  /** One highlight record `{id, text, color, note, timestamp}`. */
  datatype Highlight = Highlight(id: string, text: string, color: Color, note: string, timestamp: nat)

  /** One favourites entry `{chatKey, title, timestamp}`. */
  datatype Favorite = Favorite(chatKey: string, title: string, timestamp: nat)

  /** What a storage key can hold: a string (a title, a free-text note) or
      one of the two arrays the extension writes. */
  datatype StoredValue =
    | Text(s: string)
    | HighlightArray(records: seq<Highlight>)
    | FavoriteArray(entries: seq<Favorite>)
  {
    predicate IsArray() {
      HighlightArray? || FavoriteArray?
    }

    function ArrayLength(): nat
      requires IsArray()
    {
      if HighlightArray? then |records| else |entries|
    }
  }

  /** `chrome.storage.local`: one map shared by the page and the popup. */
  class Store {
    var data: map<string, StoredValue>

    constructor (initial: map<string, StoredValue>)
      ensures data == initial
    {
      data := initial;
    }
  }

  const HighlightsPrefix := "highlights_"
  const TitlePrefix := "title_"
  const FavoritesKey := "favorites"

  function HighlightsKey(chatKey: string): string {
    HighlightsPrefix + chatKey
  }

  function TitleKey(chatKey: string): string {
    TitlePrefix + chatKey
  }

  /** A highlights key, a title key and the favourites key never collide. */
  lemma KeysDistinct(a: string, b: string)
    ensures HighlightsKey(a) != TitleKey(b)
    ensures HighlightsKey(a) != FavoritesKey && TitleKey(b) != FavoritesKey
  {
    assert HighlightsKey(a)[0] == 'h' && TitleKey(b)[0] == 't';
    assert |FavoritesKey| == 9 && FavoritesKey[0] == 'f';
  }

  /** `saveHighlights(chatKey)`: the store with the whole list and the
      title snapshot written under the conversation's two keys. What it
      keeps and writes is `PersistedWrites`. */
  function Persisted(data: map<string, StoredValue>, chatKey: string, hs: seq<Highlight>, title: string)
    : (r: map<string, StoredValue>)
    ensures HighlightsKey(chatKey) in r && r[HighlightsKey(chatKey)] == HighlightArray(hs)
    ensures TitleKey(chatKey) in r && r[TitleKey(chatKey)] == Text(title)
  {
    KeysDistinct(chatKey, chatKey);
    data[HighlightsKey(chatKey) := HighlightArray(hs)][TitleKey(chatKey) := Text(title)]
  }

  /** Saving adds exactly the conversation's two keys, writes the list and
      the title there, and keeps every other key's value. */
  lemma PersistedWrites(data: map<string, StoredValue>, chatKey: string, hs: seq<Highlight>, title: string)
    ensures Persisted(data, chatKey, hs, title).Keys == data.Keys + {HighlightsKey(chatKey), TitleKey(chatKey)}
    ensures Persisted(data, chatKey, hs, title)[HighlightsKey(chatKey)] == HighlightArray(hs)
    ensures Persisted(data, chatKey, hs, title)[TitleKey(chatKey)] == Text(title)
    ensures forall k :: k in data && k != HighlightsKey(chatKey) && k != TitleKey(chatKey) ==>
              Persisted(data, chatKey, hs, title)[k] == data[k]
  {
    KeysDistinct(chatKey, chatKey);
  }

  /** `data[storageKey] || []` in `loadHighlights`: a non-empty result is
      the array stored under the key; a missing key or another kind of
      value gives the empty list. */
  function StoredHighlights(data: map<string, StoredValue>, chatKey: string): (r: seq<Highlight>)
    ensures r != [] ==> HighlightsKey(chatKey) in data && data[HighlightsKey(chatKey)] == HighlightArray(r)
    ensures HighlightsKey(chatKey) !in data || !data[HighlightsKey(chatKey)].HighlightArray? ==> r == []
    ensures HighlightsKey(chatKey) in data && data[HighlightsKey(chatKey)].HighlightArray? ==>
              r == data[HighlightsKey(chatKey)].records
  {
    var key := HighlightsKey(chatKey);
    if key in data && data[key].HighlightArray? then data[key].records else []
  }

  /** `data.favorites || []` in the popup, read the same way. */
  function StoredFavorites(data: map<string, StoredValue>): (r: seq<Favorite>)
    ensures r != [] ==> FavoritesKey in data && data[FavoritesKey] == FavoriteArray(r)
    ensures FavoritesKey !in data || !data[FavoritesKey].FavoriteArray? ==> r == []
    ensures FavoritesKey in data && data[FavoritesKey].FavoriteArray? ==> r == data[FavoritesKey].entries
  {
    if FavoritesKey in data && data[FavoritesKey].FavoriteArray? then data[FavoritesKey].entries else []
  }

  /** Persisting a list and loading it back yields the same list, in the
      same order, with the same ids, texts, colours and notes. */
  lemma PersistThenLoad(data: map<string, StoredValue>, chatKey: string, hs: seq<Highlight>, title: string)
    ensures StoredHighlights(Persisted(data, chatKey, hs, title), chatKey) == hs
  {
    PersistedWrites(data, chatKey, hs, title);
  }

  /** Storing a favourites list and reading it back yields that list, in
      the same order. */
  lemma FavoritesReadBack(data: map<string, StoredValue>, fs: seq<Favorite>)
    ensures StoredFavorites(data[FavoritesKey := FavoriteArray(fs)]) == fs
  {
  }

  /** Persisting one conversation leaves the favourites untouched. */
  lemma PersistKeepsFavorites(data: map<string, StoredValue>, chatKey: string, hs: seq<Highlight>, title: string)
    ensures StoredFavorites(Persisted(data, chatKey, hs, title)) == StoredFavorites(data)
  {
    PersistedWrites(data, chatKey, hs, title);
    KeysDistinct(chatKey, chatKey);
  }
}
