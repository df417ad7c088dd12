/** The extension popup (popup.js): the address a favourite's key leads
    to, the character and word counters of the note box, the favourites
    list (toggle, remove, membership, drag reorder) and the per-chat
    summaries of the Highlights tab. */
module Popup {

  import opened Options
  import opened JsText
  import opened ChatKey
  import opened Storage

  const ChatGptUrlPrefix := "https://chatgpt.com/c/"
  const GeminiUrlPrefix := "https://gemini.google.com/app/"
  const UntitledChat := "Untitled Chat"

  predicate StartsWith(s: string, prefix: string) {
    |prefix| <= |s| && s[..|prefix|] == prefix
  }

  // ---------------------------------------------------------------------
  // Key to address (setupFavoriteClick)

  /** The address `setupFavoriteClick` navigates to; `None` when the key
      has neither provider tag and no navigation happens. */
  function KeyToUrl(key: string): (url: Option<string>)
    ensures url.None? <==> !StartsWith(key, ChatGptTag) && !StartsWith(key, GeminiTag)
  {
    if StartsWith(key, ChatGptTag) then Some(ChatGptUrlPrefix + key[|ChatGptTag|..])
    else if StartsWith(key, GeminiTag) then Some(GeminiUrlPrefix + key[|GeminiTag|..])
    else None
  }

  /** `getChatKey` reads the key back from a ChatGPT conversation address. */
  lemma ChatGptAddressKey(id: string)
    requires IsId(id)
    ensures GetChatKey(ChatGptUrlPrefix + id) == Some(ChatGptTag + id)
  {
    var url := ChatGptUrlPrefix + id;
    ChatGptAddressCaptures(id);
    GetChatKeySpec(url);
    var k := GetChatKey(url).value;
    CapturesUnique(url, "/c/", k[|ChatGptTag|..], id);
    assert k == k[..|ChatGptTag|] + k[|ChatGptTag|..];
  }

  /** A ChatGPT conversation address names the ChatGPT host, and its `/c/`
      pattern captures the id. */
  lemma ChatGptAddressCaptures(id: string)
    requires IsId(id)
    ensures OnChatGpt(ChatGptUrlPrefix + id) && HasMatch(ChatGptUrlPrefix + id, "/c/")
    ensures Captures(ChatGptUrlPrefix + id, "/c/", id)
  {
    ChatGptPrefixShape();
    PrefixCaptures(ChatGptUrlPrefix, "chatgpt.com", 8, "/c/", id);
  }

  /** Where the host and the path pattern sit in the ChatGPT prefix, and
      that no earlier position has the pattern's first and last character. */
  lemma ChatGptPrefixShape()
    ensures ChatGptUrlPrefix[8..19] == "chatgpt.com" && ChatGptUrlPrefix[19..] == "/c/"
    ensures forall q: nat :: q < 19 ==> ChatGptUrlPrefix[q] != '/' || ChatGptUrlPrefix[q + 2] != '/'
  {
    assert ChatGptUrlPrefix == "https://" + "chatgpt.com" + "/c/";
  }

  /** An address made of a literal prefix that holds `host` at `h` and ends
      with `lit`, followed by an id: the host is present, and the leftmost
      match of `lit` followed by an id is the one at the end of the prefix,
      so the group captures the id. */
  lemma PrefixCaptures(prefix: string, host: string, h: nat, lit: string, id: string)
    requires IsId(id) && |lit| >= 2 && |lit| <= |prefix|
    requires h + |host| <= |prefix| && prefix[h..h + |host|] == host
    requires prefix[|prefix| - |lit|..] == lit
    requires forall q: nat :: q < |prefix| - |lit| ==>
               prefix[q] != lit[0] || prefix[q + |lit| - 1] != lit[|lit| - 1]
    ensures Contains(prefix + id, host)
    ensures HasMatch(prefix + id, lit) && Captures(prefix + id, lit, id)
  {
    var url := prefix + id;
    var s := |prefix| - |lit|;
    assert url[h..h + |host|] == host by {
      forall k | 0 <= k < |host| ensures url[h..h + |host|][k] == host[k] {
        assert url[h + k] == prefix[h + k] == prefix[h..h + |host|][k];
      }
    }
    assert OccursAt(url, host, h);
    assert url[s..s + |lit|] == lit by {
      forall k | 0 <= k < |lit| ensures url[s..s + |lit|][k] == lit[k] {
        assert url[s + k] == prefix[s + k] == prefix[s..][k];
      }
    }
    assert url[s + |lit|] == id[0];
    assert MatchesAt(url, lit, s);
    forall q: nat | q < s && q + |lit| < |url| ensures url[q] != lit[0] || url[q + |lit| - 1] != lit[|lit| - 1] {
      assert url[q] == prefix[q] && url[q + |lit| - 1] == prefix[q + |lit| - 1];
    }
    LeftmostByEnds(url, lit, s);
    assert url[..s + |lit|] == prefix;
    CapturesTail(url, lit, s, id);
  }

  /** `getChatKey` reads the key back from a Gemini conversation address:
      the ChatGPT test finds no `/c/` match there and falls through. */
  lemma GeminiAddressKey(id: string)
    requires IsId(id)
    ensures GetChatKey(GeminiUrlPrefix + id) == Some(GeminiTag + id)
  {
    var url := GeminiUrlPrefix + id;
    GeminiAddressNoChatGptPath(id);
    GeminiAddressCaptures(id);
    GetChatKeySpec(url);
    var k := GetChatKey(url).value;
    CapturesUnique(url, "/app/", k[|GeminiTag|..], id);
    assert k == k[..|GeminiTag|] + k[|GeminiTag|..];
  }

  /** A Gemini conversation address holds no `/c/` followed by an id. */
  lemma GeminiAddressNoChatGptPath(id: string)
    requires IsId(id)
    ensures !HasMatch(GeminiUrlPrefix + id, "/c/")
  {
    var url := GeminiUrlPrefix + id;
    forall q: nat | q + 3 < |url| ensures url[q] != '/' || url[q + 2] != '/' {
      if q + 2 >= 30 { assert url[q + 2] == id[q + 2 - 30]; }
    }
    NoMatchByEnds(url, "/c/");
  }

  /** A Gemini conversation address names the Gemini host, and its
      `/app/` pattern captures the id. */
  lemma GeminiAddressCaptures(id: string)
    requires IsId(id)
    ensures OnGemini(GeminiUrlPrefix + id) && HasMatch(GeminiUrlPrefix + id, "/app/")
    ensures Captures(GeminiUrlPrefix + id, "/app/", id)
  {
    GeminiPrefixShape();
    PrefixCaptures(GeminiUrlPrefix, "gemini.google.com", 8, "/app/", id);
  }

  /** Where the host and the path pattern sit in the Gemini prefix, and
      that no earlier position has the pattern's first and last character. */
  lemma GeminiPrefixShape()
    ensures GeminiUrlPrefix[8..25] == "gemini.google.com" && GeminiUrlPrefix[25..] == "/app/"
    ensures forall q: nat :: q < 25 ==> GeminiUrlPrefix[q] != '/' || GeminiUrlPrefix[q + 4] != '/'
  {
    assert GeminiUrlPrefix == "https://" + "gemini.google.com" + "/app/";
    GeminiPrefixScheme();
    GeminiPrefixHost();
  }

  /** The slashes of `https://` are followed four places on by letters. */
  lemma GeminiPrefixScheme()
    ensures forall q: nat :: q < 8 ==> GeminiUrlPrefix[q] != '/' || GeminiUrlPrefix[q + 4] != '/'
  {
    var scheme, host := "https://", "gemini.google.com";
    assert GeminiUrlPrefix == scheme + host + "/app/";
    forall q: nat | q < 8 ensures GeminiUrlPrefix[q] != '/' || GeminiUrlPrefix[q + 4] != '/' {
      assert GeminiUrlPrefix[q] == scheme[q];
      if q + 4 < 8 {
        assert GeminiUrlPrefix[q + 4] == scheme[q + 4];
      } else {
        assert GeminiUrlPrefix[q + 4] == host[q - 4];
      }
    }
  }

  /** The host name holds no slash. */
  lemma GeminiPrefixHost()
    ensures forall q: nat :: 8 <= q < 25 ==> GeminiUrlPrefix[q] != '/'
  {
    var scheme, host := "https://", "gemini.google.com";
    assert GeminiUrlPrefix == scheme + host + "/app/";
    forall q: nat | 8 <= q < 25 ensures GeminiUrlPrefix[q] != '/' {
      assert GeminiUrlPrefix[q] == host[q - 8];
    }
  }

  /** Round trip across the two scripts: every key `getChatKey` can
      produce leads to an address from which `getChatKey` gives it back. */
  lemma KeyToUrlRoundTrip(key: string)
    requires IsChatKey(key)
    ensures KeyToUrl(key).Some? && GetChatKey(KeyToUrl(key).value) == Some(key)
  {
    if |key| > |ChatGptTag| && key[..|ChatGptTag|] == ChatGptTag && IsId(key[|ChatGptTag|..]) {
      ChatGptAddressKey(key[|ChatGptTag|..]);
      assert key == ChatGptTag + key[|ChatGptTag|..];
    } else {
      assert key[0] == key[..|GeminiTag|][0] == 'g';
      assert !StartsWith(key, ChatGptTag);
      GeminiAddressKey(key[|GeminiTag|..]);
      assert key == GeminiTag + key[|GeminiTag|..];
    }
  }

  /** Any conversation address, whatever its host spelling or query, leads
      through its key to the canonical address of the same conversation. */
  lemma CanonicalAddress(url: string)
    requires GetChatKey(url).Some?
    ensures KeyToUrl(GetChatKey(url).value).Some?
    ensures GetChatKey(KeyToUrl(GetChatKey(url).value).value) == GetChatKey(url)
  {
    GetChatKeySpec(url);
    KeyToUrlRoundTrip(GetChatKey(url).value);
  }

  // ---------------------------------------------------------------------
  // Character and word counts (updateCounts)

  predicate NoWhitespace(s: string) {
    forall i :: 0 <= i < |s| ==> !IsWhitespace(s[i])
  }

  /** The end of the run of non-whitespace characters from `from`. */
  function WordEnd(s: string, from: nat): (e: nat)
    requires from <= |s|
    ensures from <= e <= |s|
    ensures forall i :: from <= i < e ==> !IsWhitespace(s[i])
    ensures e == |s| || IsWhitespace(s[e])
    decreases |s| - from
  {
    if from < |s| && !IsWhitespace(s[from]) then WordEnd(s, from + 1) else from
  }

  /** The words of `s`: its maximal runs of non-whitespace, in order. */
  function Words(s: string): seq<string>
    decreases |s|
  {
    if s == [] then []
    else if IsWhitespace(s[0]) then Words(s[1..])
    else
      var k := WordEnd(s, 0);
      [s[..k]] + Words(s[k..])
  }

  /** Every word is a non-empty run without whitespace. */
  lemma {:induction false} WordsAreRuns(s: string)
    ensures forall i :: 0 <= i < |Words(s)| ==> |Words(s)[i]| > 0 && NoWhitespace(Words(s)[i])
    decreases |s|
  {
    if s != [] {
      if IsWhitespace(s[0]) {
        WordsAreRuns(s[1..]);
      } else {
        var k := WordEnd(s, 0);
        WordsAreRuns(s[k..]);
        var ws := Words(s);
        assert ws == [s[..k]] + Words(s[k..]);
        forall i | 0 <= i < |ws| ensures |ws[i]| > 0 && NoWhitespace(ws[i]) {
          if i > 0 { assert ws[i] == Words(s[k..])[i - 1]; }
        }
      }
    }
  }

  /** `s.split(/\s+/)`: the pieces between the leftmost maximal runs of
      whitespace (an empty piece where `s` starts or ends with one). */
  function SplitOnWhitespace(s: string): (parts: seq<string>)
    ensures |parts| >= 1
    decreases |s|
  {
    var i := WordEnd(s, 0);
    if i == |s| then [s]
    else
      var j := SpaceEnd(s, i);
      [s[..i]] + SplitOnWhitespace(s[j..])
  }

  /** `text.trim() ? text.trim().split(/\s+/).length : 0`. */
  function WordCount(text: string): (n: nat)
    ensures n == 0 <==> AllWhitespace(text)
  {
    var t := Trim(text);
    if t != [] then |SplitOnWhitespace(t)| else 0
  }

  /** Leading whitespace contributes no words. */
  lemma {:induction false} WordsSkipSpace(s: string, m: nat)
    requires m <= |s| && AllWhitespace(s[..m])
    ensures Words(s) == Words(s[m..])
    decreases m
  {
    if m > 0 {
      assert IsWhitespace(s[..m][0]);
      assert s[1..][..m - 1] == s[1..m];
      assert forall i :: 0 <= i < m - 1 ==> s[1..m][i] == s[..m][i + 1];
      WordsSkipSpace(s[1..], m - 1);
      assert s[1..][m - 1..] == s[m..];
    }
  }

  /** Trailing whitespace contributes no words. */
  lemma {:induction false} WordsDropTrailing(s: string, b: string)
    requires AllWhitespace(b)
    ensures Words(s + b) == Words(s)
    decreases |s|
  {
    if s == [] {
      assert s + b == b;
      WordsSkipSpace(b, |b|);
      assert b[|b|..] == [];
    } else if IsWhitespace(s[0]) {
      assert (s + b)[1..] == s[1..] + b;
      WordsDropTrailing(s[1..], b);
    } else {
      var k := WordEnd(s, 0);
      WordEndAcross(s, b, 0);
      assert (s + b)[..k] == s[..k];
      assert (s + b)[k..] == s[k..] + b;
      WordsDropTrailing(s[k..], b);
    }
  }

  /** A word of `s` ends at the same place when whitespace is appended. */
  lemma {:induction false} WordEndAcross(s: string, b: string, from: nat)
    requires AllWhitespace(b) && from <= |s|
    ensures WordEnd(s + b, from) == WordEnd(s, from)
    decreases |s| - from
  {
    if from < |s| {
      assert (s + b)[from] == s[from];
      if !IsWhitespace(s[from]) { WordEndAcross(s, b, from + 1); }
    } else if from < |s + b| {
      assert (s + b)[from] == b[from - |s|];
    }
  }

  /** On a trimmed, non-empty string, `split(/\s+/)` gives exactly its words. */
  lemma {:induction false} SplitIsWords(t: string)
    requires t != [] && Trimmed(t)
    ensures SplitOnWhitespace(t) == Words(t)
    decreases |t|
  {
    var i := WordEnd(t, 0);
    if i == |t| {
      assert t[..i] == t && t[i..] == [];
      assert Words(t) == [t[..i]] + Words(t[i..]);
    } else {
      var j := SpaceEnd(t, i);
      assert !IsWhitespace(t[|t| - 1]);
      assert j < |t|;
      var rest := t[j..];
      assert rest[|rest| - 1] == t[|t| - 1];
      SplitIsWords(rest);
      WordsPastFirst(t, i, j);
      assert SplitOnWhitespace(t) == [t[..i]] + SplitOnWhitespace(rest);
    }
  }

  /** The words of a string that starts with a word: that word, then the
      words after the whitespace that follows it. */
  lemma WordsPastFirst(t: string, i: nat, j: nat)
    requires t != [] && !IsWhitespace(t[0])
    requires i == WordEnd(t, 0) && i < |t| && j == SpaceEnd(t, i)
    ensures Words(t) == [t[..i]] + Words(t[j..])
  {
    assert Words(t) == [t[..i]] + Words(t[i..]);
    assert t[i..][..j - i] == t[i..j];
    assert forall m :: 0 <= m < j - i ==> t[i..j][m] == t[i + m];
    WordsSkipSpace(t[i..], j - i);
    assert t[i..][j - i..] == t[j..];
  }

  /** The words of `s` are those of `s.trim()`. */
  lemma WordsOfTrim(s: string)
    ensures Words(Trim(s)) == Words(s)
  {
    var k :| Padded(s, Trim(s), k);
    WordsOfPadded(s, Trim(s), k);
  }

  /** Whitespace added around a string adds no words. */
  lemma WordsOfPadded(s: string, t: string, k: int)
    requires Padded(s, t, k)
    ensures Words(t) == Words(s)
  {
    WordsSkipSpace(s, k);
    assert s[k..] == t + s[k + |t|..];
    WordsDropTrailing(t, s[k + |t|..]);
  }

  /** The word counter counts the maximal non-whitespace tokens: zero
      exactly when the text is blank. */
  lemma WordCountIsWords(text: string)
    ensures WordCount(text) == |Words(text)|
    ensures WordCount(text) == 0 <==> AllWhitespace(text)
  {
    WordsOfTrim(text);
    var t := Trim(text);
    if t != [] {
      SplitIsWords(t);
      assert |Words(t)| >= 1 by { assert !IsWhitespace(t[0]); }
    }
  }

  /** The two labels `updateCounts` writes. */
  datatype CountLabels = CountLabels(characters: string, words: string)

  /** `updateCounts`: "N characters" counts UTF-16 code units (JavaScript's
      `.length`) and "N words" the words of the text. */
  function UpdateCounts(text: string): (r: CountLabels)
    ensures ParseDecimal(r.characters) == Some(Utf16Length(text))
    ensures ParseDecimal(r.words) == Some(|Words(text)|)
    ensures AllWhitespace(text) ==> r.words == "0 words"
  {
    var chars := Utf16Length(text);
    var words := WordCount(text);
    WordCountIsWords(text);
    ParseDecimalOfNumeral(chars, " characters");
    ParseDecimalOfNumeral(words, " words");
    ZeroWords();
    CountLabels(DecimalString(chars) + " characters", DecimalString(words) + " words")
  }

  /** The empty selection's word label is written out as "0 words". */
  lemma ZeroWords()
    ensures DecimalString(0) + " words" == "0 words"
  {
    assert DecimalString(0) == "0";
  }

  // ---------------------------------------------------------------------
  // Favourites

  /** `favorites.some(f => f.chatKey === key)`. */
  predicate IsFavorited(favs: seq<Favorite>, key: string) {
    exists j :: 0 <= j < |favs| && favs[j].chatKey == key
  }

  /** No two entries share a key. */
  predicate UniqueKeys(favs: seq<Favorite>) {
    forall i, j :: 0 <= i < j < |favs| ==> favs[i].chatKey != favs[j].chatKey
  }

  /** `favorites.findIndex(f => f.chatKey === key)`: the first index with
      that key, or -1. */
  function FindFavorite(favs: seq<Favorite>, key: string, from: nat := 0): (r: int)
    requires from <= |favs|
    ensures r == -1 || from <= r < |favs|
    ensures r >= 0 ==> favs[r].chatKey == key && forall j :: from <= j < r ==> favs[j].chatKey != key
    ensures r == -1 <==> forall j :: from <= j < |favs| ==> favs[j].chatKey != key
    decreases |favs| - from
  {
    if from == |favs| then -1
    else if favs[from].chatKey == key then from
    else FindFavorite(favs, key, from + 1)
  }

  /** `favorites.some(...)` and `findIndex(...) > -1` agree: a key is a
      favourite exactly when `findIndex` finds it. */
  lemma FavoritedIffFound(favs: seq<Favorite>, key: string)
    ensures IsFavorited(favs, key) <==> FindFavorite(favs, key) >= 0
  {
    var r := FindFavorite(favs, key);
    if r >= 0 {
      assert favs[r].chatKey == key;
    }
  }

  /** `t?.title || "Untitled Chat"`. */
  function FavoriteTitle(title: Option<string>): (r: string)
    ensures r != ""
    ensures title.Some? && title.value != "" ==> r == title.value
    ensures title.None? || title.value == "" ==> r == UntitledChat
  {
    if title.Some? && title.value != "" then title.value else UntitledChat
  }

  /** The list `toggleFavorite` stores: without the first entry for `key`
      when there is one (the others in order), else with a new entry for
      `key` at the end. */
  function Toggled(favs: seq<Favorite>, key: string, title: Option<string>, now: nat): (r: seq<Favorite>)
    ensures IsFavorited(favs, key) ==>
              var i := FindFavorite(favs, key);
              |r| == |favs| - 1 && (forall j :: 0 <= j < i ==> r[j] == favs[j])
              && (forall j :: i <= j < |r| ==> r[j] == favs[j + 1])
    ensures !IsFavorited(favs, key) ==>
              |r| == |favs| + 1 && r[..|favs|] == favs && r[|favs|] == Favorite(key, FavoriteTitle(title), now)
  {
    var index := FindFavorite(favs, key);
    if index > -1 then favs[..index] + favs[index + 1..]
    else favs + [Favorite(key, FavoriteTitle(title), now)]
  }

  /** Toggling keeps keys unique, and on such a list it flips membership. */
  lemma ToggleFlips(favs: seq<Favorite>, key: string, title: Option<string>, now: nat)
    requires UniqueKeys(favs)
    ensures UniqueKeys(Toggled(favs, key, title, now))
    ensures IsFavorited(Toggled(favs, key, title, now), key) <==> !IsFavorited(favs, key)
  {
    var r := Toggled(favs, key, title, now);
    if IsFavorited(favs, key) {
      var i := FindFavorite(favs, key);
      forall j | 0 <= j < |r| ensures r[j].chatKey != key {
        if j >= i { assert r[j] == favs[j + 1]; }
      }
      forall a, b | 0 <= a < b < |r| ensures r[a].chatKey != r[b].chatKey {
        var a' := if a < i then a else a + 1;
        var b' := if b < i then b else b + 1;
        assert r[a] == favs[a'] && r[b] == favs[b'];
      }
    } else {
      assert r[|favs|].chatKey == key;
      forall a, b | 0 <= a < b < |r| ensures r[a].chatKey != r[b].chatKey {
        if b < |favs| { assert r[a] == favs[a] && r[b] == favs[b]; }
        else { assert r[a] == favs[a]; }
      }
    }
  }

  /** Adding a favourite and toggling it again restores the list. */
  lemma ToggleTwiceRestores(favs: seq<Favorite>, key: string, t1: Option<string>, n1: nat, t2: Option<string>, n2: nat)
    requires !IsFavorited(favs, key)
    ensures Toggled(Toggled(favs, key, t1, n1), key, t2, n2) == favs
  {
    var once := Toggled(favs, key, t1, n1);
    assert once[|favs|].chatKey == key;
    assert FindFavorite(once, key) == |favs| by {
      forall j | 0 <= j < |favs| ensures once[j].chatKey != key {
        assert once[j] == favs[j];
      }
    }
    var twice := Toggled(once, key, t2, n2);
    assert forall j :: 0 <= j < |favs| ==> twice[j] == favs[j];
  }

  /** `favorites.filter(f => f.chatKey !== key)`. */
  function Without(favs: seq<Favorite>, key: string): (r: seq<Favorite>)
    ensures |r| <= |favs|
    ensures |r| == |favs| <==> forall i :: 0 <= i < |favs| ==> favs[i].chatKey != key
  {
    if favs == [] then []
    else if favs[0].chatKey == key then Without(favs[1..], key)
    else [favs[0]] + Without(favs[1..], key)
  }

  /** The filtered list is no longer, has no entry for `key`, and holds
      exactly the entries with another key. */
  lemma {:induction false} WithoutSpec(favs: seq<Favorite>, key: string)
    ensures |Without(favs, key)| <= |favs|
    ensures !IsFavorited(Without(favs, key), key)
    ensures forall f :: f in Without(favs, key) <==> f in favs && f.chatKey != key
    decreases |favs|
  {
    if favs != [] {
      WithoutSpec(favs[1..], key);
      assert favs == [favs[0]] + favs[1..];
      var r := Without(favs, key);
      var rest := Without(favs[1..], key);
      if favs[0].chatKey != key {
        assert r == [favs[0]] + rest;
        forall j | 0 <= j < |r| ensures r[j].chatKey != key {
          if j > 0 { assert r[j] == rest[j - 1]; }
        }
      }
    }
  }

  /** Filtering works piece by piece, so the kept entries keep their order. */
  lemma {:induction false} WithoutConcat(a: seq<Favorite>, b: seq<Favorite>, key: string)
    ensures Without(a + b, key) == Without(a, key) + Without(b, key)
    decreases |a|
  {
    if a != [] {
      assert (a + b)[0] == a[0] && (a + b)[1..] == a[1..] + b;
      WithoutConcat(a[1..], b, key);
    } else {
      assert a + b == b;
    }
  }

  /** A list with no entry for `key` is left as it is. */
  lemma {:induction false} WithoutAbsent(favs: seq<Favorite>, key: string)
    requires !IsFavorited(favs, key)
    ensures Without(favs, key) == favs
    decreases |favs|
  {
    if favs != [] {
      assert favs[0].chatKey != key;
      assert !IsFavorited(favs[1..], key) by {
        forall j | 0 <= j < |favs| - 1 ensures favs[1..][j].chatKey != key {
          assert favs[1..][j] == favs[j + 1];
        }
      }
      WithoutAbsent(favs[1..], key);
      assert favs == [favs[0]] + favs[1..];
    }
  }

  /** With unique keys, the remove button and toggling off store the same list. */
  lemma RemoveIsToggleOff(favs: seq<Favorite>, key: string, title: Option<string>, now: nat)
    requires UniqueKeys(favs) && IsFavorited(favs, key)
    ensures Without(favs, key) == Toggled(favs, key, title, now)
  {
    var i := FindFavorite(favs, key);
    var pre := favs[..i];
    var post := favs[i + 1..];
    assert favs == pre + ([favs[i]] + post);
    OnlyAt(favs, key, i);
    WithoutOne(pre, favs[i], post, key);
    assert Toggled(favs, key, title, now) == pre + post;
  }

  /** In a list with unique keys, the entry at `i` is the only one with its key. */
  lemma OnlyAt(favs: seq<Favorite>, key: string, i: nat)
    requires UniqueKeys(favs) && i < |favs| && favs[i].chatKey == key
    ensures !IsFavorited(favs[..i], key) && !IsFavorited(favs[i + 1..], key)
  {
    var pre := favs[..i];
    var post := favs[i + 1..];
    forall j | 0 <= j < |pre| ensures pre[j].chatKey != key { assert pre[j] == favs[j]; }
    forall j | 0 <= j < |post| ensures post[j].chatKey != key { assert post[j] == favs[i + 1 + j]; }
  }

  /** Filtering out the key of the one entry that has it leaves the rest. */
  lemma WithoutOne(pre: seq<Favorite>, f: Favorite, post: seq<Favorite>, key: string)
    requires f.chatKey == key && !IsFavorited(pre, key) && !IsFavorited(post, key)
    ensures Without(pre + ([f] + post), key) == pre + post
  {
    WithoutConcat([f], post, key);
    WithoutAbsent(post, key);
    assert Without([f], key) == [] by { assert [f][1..] == []; }
    WithoutConcat(pre, [f] + post, key);
    WithoutAbsent(pre, key);
  }

  // ---------------------------------------------------------------------
  // Drag reorder (handleDragEnd)

  /** Every entry of `order` is an index of a list of length `n`. */
  predicate IndicesBelow(order: seq<int>, n: int) {
    forall k :: 0 <= k < |order| ==> 0 <= order[k] < n
  }

  /** `newOrder.map(index => favorites[index])`. */
  function Reordered(favs: seq<Favorite>, order: seq<int>): (r: seq<Favorite>)
    requires IndicesBelow(order, |favs|)
    ensures |r| == |order|
  {
    seq(|order|, k requires 0 <= k < |order| => favs[order[k]])
  }

  function Indices(n: nat): (r: seq<int>)
    ensures |r| == n && forall i :: 0 <= i < n ==> r[i] == i
  {
    seq(n, i => i)
  }

  /** `order` lists each of 0..n-1 exactly once. */
  predicate IsPermutation(order: seq<int>, n: nat) {
    multiset(order) == multiset(Indices(n))
  }

  lemma PermutationInRange(order: seq<int>, n: nat)
    requires IsPermutation(order, n)
    ensures |order| == n
    ensures forall k :: 0 <= k < |order| ==> 0 <= order[k] < n
  {
    calc {
      |order|;
      |multiset(order)|;
      |multiset(Indices(n))|;
      n;
    }
    forall k | 0 <= k < |order| ensures 0 <= order[k] < n {
      assert order[k] in multiset(order);
      assert order[k] in multiset(Indices(n));
      var i :| 0 <= i < n && Indices(n)[i] == order[k];
    }
  }

  lemma ReorderedConcat(favs: seq<Favorite>, a: seq<int>, b: seq<int>)
    requires IndicesBelow(a, |favs|)
    requires IndicesBelow(b, |favs|)
    ensures Reordered(favs, a + b) == Reordered(favs, a) + Reordered(favs, b)
  {
    assert forall k :: 0 <= k < |a + b| ==> 0 <= (a + b)[k] < |favs|;
  }

  /** Taking out the entry at `m` of an order takes its pick out of the result. */
  lemma ReorderedRemove(favs: seq<Favorite>, o: seq<int>, m: nat)
    requires IndicesBelow(o, |favs|)
    requires m < |o|
    ensures IndicesBelow(o[..m] + o[m + 1..], |favs|)
    ensures multiset(Reordered(favs, o))
            == multiset(Reordered(favs, o[..m] + o[m + 1..])) + multiset{favs[o[m]]}
  {
    var rest := o[..m] + o[m + 1..];
    forall k | 0 <= k < |rest| ensures 0 <= rest[k] < |favs| {
      if k < m { assert rest[k] == o[k]; } else { assert rest[k] == o[k + 1]; }
    }
    assert o == o[..m] + [o[m]] + o[m + 1..];
    ReorderedConcat(favs, o[..m] + [o[m]], o[m + 1..]);
    ReorderedConcat(favs, o[..m], [o[m]]);
    ReorderedConcat(favs, o[..m], o[m + 1..]);
    assert Reordered(favs, [o[m]]) == [favs[o[m]]];
  }

  /** Two orders listing the same indices pick the same entries. */
  lemma {:induction false} ReorderedSameIndices(favs: seq<Favorite>, o1: seq<int>, o2: seq<int>)
    requires IndicesBelow(o1, |favs|)
    requires IndicesBelow(o2, |favs|)
    requires multiset(o1) == multiset(o2)
    ensures multiset(Reordered(favs, o1)) == multiset(Reordered(favs, o2))
    decreases |o1|
  {
    if o1 != [] {
      var m := SameElementAt(o1, o2);
      var rest1, rest2 := o1[..0] + o1[1..], o2[..m] + o2[m + 1..];
      ReorderedRemove(favs, o1, 0);
      ReorderedRemove(favs, o2, m);
      ReorderedSameIndices(favs, rest1, rest2);
    }
  }

  /** The first index of `o1` sits at some `m` in `o2`, and the two orders
      without those entries still list the same indices. */
  lemma SameElementAt(o1: seq<int>, o2: seq<int>) returns (m: nat)
    requires o1 != [] && multiset(o1) == multiset(o2)
    ensures m < |o2| && o2[m] == o1[0]
    ensures multiset(o1[..0] + o1[1..]) == multiset(o2[..m] + o2[m + 1..])
  {
    assert o1[0] in multiset(o2);
    m :| 0 <= m < |o2| && o2[m] == o1[0];
    MultisetRemoveAt(o1, 0);
    MultisetRemoveAt(o2, m);
  }

  lemma MultisetRemoveAt(o: seq<int>, m: nat)
    requires m < |o|
    ensures multiset(o[..m] + o[m + 1..]) == multiset(o) - multiset{o[m]}
  {
    assert o == o[..m] + [o[m]] + o[m + 1..];
  }

  /** Reordering by a permutation of the indices yields a permutation of
      the favourites: no entry lost, none duplicated. */
  lemma ReorderIsPermutation(favs: seq<Favorite>, order: seq<int>)
    requires IsPermutation(order, |favs|)
    ensures forall k :: 0 <= k < |order| ==> 0 <= order[k] < |favs|
    ensures |Reordered(favs, order)| == |favs|
    ensures multiset(Reordered(favs, order)) == multiset(favs)
  {
    PermutationInRange(order, |favs|);
    ReorderedSameIndices(favs, order, Indices(|favs|));
    assert Reordered(favs, Indices(|favs|)) == favs;
  }

  /** The rendered `data-index="${index}"` is read back by `parseInt` as
      the same index, so the new order refers to the list as it was last
      rendered. `handleDragEnd` does not render again, so after one drag
      these indices no longer match the stored list (`StaleSecondDrag`). */
  lemma DataIndexRoundTrip(index: nat)
    ensures ParseDecimal(DecimalString(index)) == Some(index)
  {
    ParseDecimalOfNumeral(index, "");
    assert DecimalString(index) + "" == DecimalString(index);
  }

  /** Two drags in a row on `[a, b, c]`. The first moves `c` to the top:
      the items stand with data-index 2, 0, 1 and `[c, a, b]` is stored.
      The list is not rendered again, so when the second drag moves `b` to
      the top the items read 1, 2, 0. Those indices are applied to the
      stored `[c, a, b]`: `[a, b, c]` is stored, while the screen shows
      `[b, c, a]`. */
  lemma StaleSecondDrag(a: Favorite, b: Favorite, c: Favorite)
    requires a != b
    ensures Reordered([a, b, c], [2, 0, 1]) == [c, a, b]
    ensures Reordered(Reordered([a, b, c], [2, 0, 1]), [1, 2, 0]) == [a, b, c]
    ensures Reordered([a, b, c], [1, 2, 0]) == [b, c, a]
    ensures Reordered(Reordered([a, b, c], [2, 0, 1]), [1, 2, 0]) != Reordered([a, b, c], [1, 2, 0])
  {
    var first := Reordered([a, b, c], [2, 0, 1]);
    assert first == [c, a, b];
    assert Reordered(first, [1, 2, 0]) == [a, b, c];
    var screen := Reordered([a, b, c], [1, 2, 0]);
    assert screen == [b, c, a];
    assert screen[0] != a;
  }

  // ---------------------------------------------------------------------
  // Highlighted chats (loadHighlightedChats)

  /** One entry of the Highlights tab. */
  datatype ChatSummary = ChatSummary(chatKey: string, highlights: StoredValue, count: nat, title: string)

  /** `data[`title_${chatKey}`] || chatKey`. */
  function SummaryTitle(data: map<string, StoredValue>, chatKey: string): (title: string)
    ensures title == chatKey || (TitleKey(chatKey) in data && data[TitleKey(chatKey)] == Text(title) && title != "")
  {
    var key := TitleKey(chatKey);
    if key in data && data[key].Text? && data[key].s != "" then data[key].s else chatKey
  }

  /** What one storage key contributes: a summary when it starts with the
      `highlights_` prefix and holds a non-empty array. */
  function SummaryFor(data: map<string, StoredValue>, key: string): (r: Option<ChatSummary>)
    requires key in data
    ensures r.Some? <==> StartsWith(key, HighlightsPrefix) && data[key].IsArray() && data[key].ArrayLength() > 0
    ensures r.Some? ==>
              && HighlightsKey(r.value.chatKey) == key
              && r.value.highlights == data[key]
              && r.value.count == data[key].ArrayLength() > 0
              && r.value.title == SummaryTitle(data, r.value.chatKey)
  {
    if StartsWith(key, HighlightsPrefix) && data[key].IsArray() && data[key].ArrayLength() > 0 then
      var chatKey := key[|HighlightsPrefix|..];
      assert HighlightsKey(chatKey) == key;
      Some(ChatSummary(chatKey, data[key], data[key].ArrayLength(), SummaryTitle(data, chatKey)))
    else None
  }

  /** The summaries of `keys`, in the order the keys are enumerated. */
  function Summaries(data: map<string, StoredValue>, keys: seq<string>): (r: seq<ChatSummary>)
    requires forall i :: 0 <= i < |keys| ==> keys[i] in data
    ensures |r| <= |keys|
  {
    if keys == [] then []
    else
      var init := keys[..|keys| - 1];
      var last := SummaryFor(data, keys[|keys| - 1]);
      Summaries(data, init) + (if last.Some? then [last.value] else [])
  }

  /** Every summary comes from one of the keys. */
  lemma {:induction false} SummariesSound(data: map<string, StoredValue>, keys: seq<string>, c: ChatSummary)
    requires forall i :: 0 <= i < |keys| ==> keys[i] in data
    requires c in Summaries(data, keys)
    ensures exists i :: 0 <= i < |keys| && SummaryFor(data, keys[i]) == Some(c)
    decreases |keys|
  {
    var init := keys[..|keys| - 1];
    if c in Summaries(data, init) {
      SummariesSound(data, init, c);
      var i :| 0 <= i < |init| && SummaryFor(data, init[i]) == Some(c);
      assert keys[i] == init[i];
    } else {
      assert SummaryFor(data, keys[|keys| - 1]) == Some(c);
    }
  }

  /** Every key that qualifies yields its summary. */
  lemma {:induction false} SummariesComplete(data: map<string, StoredValue>, keys: seq<string>, i: nat)
    requires forall i :: 0 <= i < |keys| ==> keys[i] in data
    requires i < |keys| && SummaryFor(data, keys[i]).Some?
    ensures SummaryFor(data, keys[i]).value in Summaries(data, keys)
    decreases |keys|
  {
    var init := keys[..|keys| - 1];
    if i < |keys| - 1 {
      assert keys[i] == init[i];
      SummariesComplete(data, init, i);
    }
  }

  /** `loadHighlightedChats`: the `for...in` loop over the store's keys,
      enumerated by `keys`. */
  method LoadHighlightedChats(data: map<string, StoredValue>, keys: seq<string>) returns (chats: seq<ChatSummary>)
    requires forall i :: 0 <= i < |keys| ==> keys[i] in data
    requires forall k :: k in data ==> k in keys
    requires forall i, j :: 0 <= i < j < |keys| ==> keys[i] != keys[j]
    ensures chats == Summaries(data, keys)
    ensures forall c :: c in chats ==> exists k :: k in data && SummaryFor(data, k) == Some(c)
    ensures forall k :: k in data && SummaryFor(data, k).Some? ==> SummaryFor(data, k).value in chats
    ensures DistinctChats(chats)
  {
    chats := [];
    for i := 0 to |keys|
      invariant chats == Summaries(data, keys[..i])
    {
      assert keys[..i + 1][..i] == keys[..i];
      var key := keys[i];
      if StartsWith(key, HighlightsPrefix) {
        var chatKey := key[|HighlightsPrefix|..];
        var highlights := data[key];
        if highlights.IsArray() && highlights.ArrayLength() > 0 {
          chats := chats + [ChatSummary(chatKey, highlights, highlights.ArrayLength(), SummaryTitle(data, chatKey))];
        }
      }
    }
    assert keys[..|keys|] == keys;
    forall c | c in chats ensures exists k :: k in data && SummaryFor(data, k) == Some(c) {
      SummariesSound(data, keys, c);
    }
    forall k | k in data && SummaryFor(data, k).Some? ensures SummaryFor(data, k).value in chats {
      var i :| 0 <= i < |keys| && keys[i] == k;
      SummariesComplete(data, keys, i);
    }
    SummariesDistinct(data, keys);
  }

  /** No chat appears twice. */
  predicate DistinctChats(cs: seq<ChatSummary>) {
    forall i, j :: 0 <= i < j < |cs| ==> cs[i].chatKey != cs[j].chatKey
  }

  /** Distinct keys give summaries of distinct chats: no chat is listed twice. */
  lemma {:induction false} SummariesDistinct(data: map<string, StoredValue>, keys: seq<string>)
    requires forall i :: 0 <= i < |keys| ==> keys[i] in data
    requires forall i, j :: 0 <= i < j < |keys| ==> keys[i] != keys[j]
    ensures DistinctChats(Summaries(data, keys))
    decreases |keys|
  {
    if keys != [] {
      var init := keys[..|keys| - 1];
      var last := keys[|keys| - 1];
      SummariesDistinct(data, init);
      var front := Summaries(data, init);
      var s := SummaryFor(data, last);
      assert Summaries(data, keys) == front + (if s.Some? then [s.value] else []);
      if s.Some? {
        forall c | c in front ensures c.chatKey != s.value.chatKey {
          SummariesSound(data, init, c);
          var i :| 0 <= i < |init| && SummaryFor(data, init[i]) == Some(c);
          assert init[i] == keys[i] && keys[i] != last;
          assert HighlightsKey(c.chatKey) == init[i] && HighlightsKey(s.value.chatKey) == last;
        }
        AppendDistinct(front, s.value);
      }
    }
  }

  /** Appending a chat that is not yet listed keeps the chats distinct. */
  lemma AppendDistinct(cs: seq<ChatSummary>, c: ChatSummary)
    requires DistinctChats(cs)
    requires forall d :: d in cs ==> d.chatKey != c.chatKey
    ensures DistinctChats(cs + [c])
  {
    var r := cs + [c];
    forall i, j | 0 <= i < j < |r| ensures r[i].chatKey != r[j].chatKey {
      assert r[i] == cs[i];
      if j < |cs| {
        assert r[j] == cs[j];
      } else {
        assert r[j] == c && cs[i] in cs;
      }
    }
  }

  /** Across the two scripts: what `saveHighlights` writes is listed with
      the list's length and the saved title (or the key for an empty title). */
  lemma SummaryOfPersisted(data: map<string, StoredValue>, chatKey: string, hs: seq<Highlight>, title: string)
    requires |hs| > 0
    ensures HighlightsKey(chatKey) in Persisted(data, chatKey, hs, title)
    ensures SummaryFor(Persisted(data, chatKey, hs, title), HighlightsKey(chatKey))
            == Some(ChatSummary(chatKey, HighlightArray(hs), |hs|, if title != "" then title else chatKey))
  {
    PersistedWrites(data, chatKey, hs, title);
    var key := HighlightsKey(chatKey);
    assert key[|HighlightsPrefix|..] == chatKey;
    assert StartsWith(key, HighlightsPrefix);
  }

  // ---------------------------------------------------------------------
  // The popup's state

  /** The popup's globals and the visible state of its favourite button
      and status line, over the shared store. */
  class PopupView {
    const store: Store
    var currentChatKey: Option<string>
    var favorited: bool                    // the ★ / ☆ button
    var status: string

    constructor (store: Store)
      ensures this.store == store && currentChatKey == None && !favorited && status == ""
    {
      this.store := store;
      currentChatKey := None;
      favorited := false;
      status := "";
    }

    /** The `GET_CHAT_KEY` answer during `init`: a key enables the popup and
        loads the favourite status; no key leaves it disabled. */
    method ReceiveChatKey(res: Option<string>)
      modifies this`currentChatKey, this`favorited, this`status
      ensures res.None? || res.value == "" ==>
                currentChatKey == old(currentChatKey) && favorited == old(favorited)
                && status == "Open a ChatGPT or Gemini chat"
      ensures res.Some? && res.value != "" ==>
                currentChatKey == res && status == "Ready"
                && favorited == IsFavorited(StoredFavorites(store.data), res.value)
    {
      if res.None? || res.value == "" {
        status := "Open a ChatGPT or Gemini chat";
        return;
      }
      currentChatKey := res;
      LoadFavoriteStatus();
      status := "Ready";
    }

    /** `loadFavoriteStatus`: the button shows whether some entry has the
        current key. */
    method LoadFavoriteStatus()
      modifies this`favorited
      ensures favorited == (currentChatKey.Some? && IsFavorited(StoredFavorites(store.data), currentChatKey.value))
    {
      var favorites := StoredFavorites(store.data);
      favorited := currentChatKey.Some? && IsFavorited(favorites, currentChatKey.value);
    }

    /** `toggleFavorite`, with the title answer and the clock as inputs. */
    method ToggleFavorite(title: Option<string>, now: nat)
      modifies this`favorited, this`status, store`data
      ensures currentChatKey.None? ==>
                store.data == old(store.data) && favorited == old(favorited) && status == old(status)
      ensures currentChatKey.Some? ==>
                var favs := StoredFavorites(old(store.data));
                && store.data == old(store.data)[FavoritesKey := FavoriteArray(Toggled(favs, currentChatKey.value, title, now))]
                && favorited == !IsFavorited(favs, currentChatKey.value)
                && status == if favorited then "Added to favorites" else "Removed from favorites"
    {
      if currentChatKey.None? {
        return;
      }
      var key := currentChatKey.value;
      var favorites := StoredFavorites(store.data);
      ghost var expected := Toggled(favorites, key, title, now);
      ghost var wasFavorited := IsFavorited(favorites, key);
      var index := FindFavorite(favorites, key);
      assert index > -1 <==> wasFavorited;
      if index > -1 {
        favorites := favorites[..index] + favorites[index + 1..];
        favorited := false;
        status := "Removed from favorites";
      } else {
        favorites := favorites + [Favorite(key, FavoriteTitle(title), now)];
        favorited := true;
        status := "Added to favorites";
      }
      assert favorites == expected;
      store.data := store.data[FavoritesKey := FavoriteArray(favorites)];
    }

    /** `removeFavorite(chatKey)`: the list without that key; the button is
        cleared when it was the current chat. */
    method RemoveFavorite(chatKey: string)
      modifies this`favorited, store`data
      ensures store.data == old(store.data)[FavoritesKey := FavoriteArray(Without(StoredFavorites(old(store.data)), chatKey))]
      ensures favorited == if currentChatKey == Some(chatKey) then false else old(favorited)
    {
      var favorites := StoredFavorites(store.data);
      var filtered := Without(favorites, chatKey);
      store.data := store.data[FavoritesKey := FavoriteArray(filtered)];
      if currentChatKey == Some(chatKey) {
        favorited := false;
      }
    }

    /** `handleDragEnd`: the stored list rearranged into the order the
        items now stand in. */
    method HandleDragEnd(newOrder: seq<int>)
      requires forall k :: 0 <= k < |newOrder| ==> 0 <= newOrder[k] < |StoredFavorites(store.data)|
      modifies store`data
      ensures store.data == old(store.data)[FavoritesKey := FavoriteArray(Reordered(StoredFavorites(old(store.data)), newOrder))]
    {
      var favorites := StoredFavorites(store.data);
      var reordered := Reordered(favorites, newOrder);
      store.data := store.data[FavoritesKey := FavoriteArray(reordered)];
    }

    /** A click on a favourite: the address to open, if any. */
    method FavoriteClicked(chatKey: string) returns (url: Option<string>)
      modifies this`status
      ensures url == KeyToUrl(chatKey)
      ensures status == if url.Some? then "Navigating to chat..." else old(status)
    {
      url := KeyToUrl(chatKey);
      if url.Some? {
        status := "Navigating to chat...";
      }
    }
  }
}
