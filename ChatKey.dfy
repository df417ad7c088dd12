/** `getChatKey` (content.js): the conversation key that a page address
    identifies, or none when the address belongs to no supported chat
    provider. The two regular expressions `/\/c\/([a-zA-Z0-9-]+)/` and
    `/\/app\/([a-zA-Z0-9-]+)/` are written out with JavaScript's
    leftmost, greedy matching. */
module ChatKey {

  import opened Options

  const ChatGptTag := "chatgpt_"
  const GeminiTag := "gemini_"

  predicate IsIdChar(c: char) {
    ('a' <= c <= 'z') || ('A' <= c <= 'Z') || ('0' <= c <= '9') || c == '-'
  }

  /** A non-empty run of `[a-zA-Z0-9-]`. */
  predicate IsId(s: string) {
    |s| > 0 && forall i :: 0 <= i < |s| ==> IsIdChar(s[i])
  }

  /** The keys `getChatKey` can produce: a provider tag and an id. */
  predicate IsChatKey(k: string) {
    || (|k| > |ChatGptTag| && k[..|ChatGptTag|] == ChatGptTag && IsId(k[|ChatGptTag|..]))
    || (|k| > |GeminiTag| && k[..|GeminiTag|] == GeminiTag && IsId(k[|GeminiTag|..]))
  }

  predicate OccursAt(s: string, sub: string, i: nat) {
    i + |sub| <= |s| && s[i..i + |sub|] == sub
  }

  /** `s.includes(sub)` */
  predicate Contains(s: string, sub: string) {
    exists i: nat :: i <= |s| && OccursAt(s, sub, i)
  }

  /** The pattern `<lit>[a-zA-Z0-9-]+` matches `url` starting at `p`. */
  predicate MatchesAt(url: string, lit: string, p: nat) {
    p + |lit| < |url| && url[p..p + |lit|] == lit && IsIdChar(url[p + |lit|])
  }

  predicate HasMatch(url: string, lit: string) {
    exists p: nat :: p < |url| && MatchesAt(url, lit, p)
  }

  /** `p` is where a leftmost-first regex engine starts the match. */
  predicate LeftmostMatch(url: string, lit: string, p: nat) {
    MatchesAt(url, lit, p) && forall q: nat :: q < p ==> !MatchesAt(url, lit, q)
  }

  /** `id` is the whole (maximal) run of id characters starting at `start`. */
  predicate RunIs(url: string, start: nat, id: string) {
    && start + |id| <= |url| && url[start..start + |id|] == id && IsId(id)
    && (start + |id| == |url| || !IsIdChar(url[start + |id|]))
  }

  /** `id` is what the group of `<lit>([a-zA-Z0-9-]+)` captures in `url`. */
  predicate Captures(url: string, lit: string, id: string) {
    exists p: nat :: p < |url| && LeftmostMatch(url, lit, p) && RunIs(url, p + |lit|, id)
  }

  /** The first position at or after `from` where the pattern matches;
      what it promises is `FirstMatchSpec`. */
  function FirstMatch(url: string, lit: string, from: nat): (r: Option<nat>)
    requires from <= |url|
    ensures r.Some? ==> from <= r.value && MatchesAt(url, lit, r.value)
    decreases |url| - from
  {
    if from == |url| then None
    else if MatchesAt(url, lit, from) then Some(from)
    else FirstMatch(url, lit, from + 1)
  }

  /** A found position matches and no earlier one (from `from`) does; with
      none found, the pattern matches nowhere from `from` on. */
  lemma {:induction false} FirstMatchSpec(url: string, lit: string, from: nat)
    requires from <= |url|
    ensures var r := FirstMatch(url, lit, from);
            && (r.Some? ==> r.value < |url| && MatchesAt(url, lit, r.value))
            && (r.Some? ==> forall q: nat :: from <= q < r.value ==> !MatchesAt(url, lit, q))
            && (r.None? ==> forall q: nat :: from <= q < |url| ==> !MatchesAt(url, lit, q))
    decreases |url| - from
  {
    if from < |url| && !MatchesAt(url, lit, from) {
      FirstMatchSpec(url, lit, from + 1);
    }
  }

  /** The end of the run of id characters that starts at `from`. */
  function RunEnd(url: string, from: nat): (e: nat)
    requires from <= |url|
    ensures from <= e <= |url|
    ensures forall i :: from <= i < e ==> IsIdChar(url[i])
    ensures e == |url| || !IsIdChar(url[e])
    decreases |url| - from
  {
    if from < |url| && IsIdChar(url[from]) then RunEnd(url, from + 1) else from
  }

  /** `url.match(/<lit>([a-zA-Z0-9-]+)/)?.[1]`: a captured group is an id; the
      full contract is `CaptureSpec`. */
  function Capture(url: string, lit: string): (r: Option<string>)
    ensures r.Some? ==> IsId(r.value)
  {
    match FirstMatch(url, lit, 0)
    case None => None
    case Some(p) =>
      var s := p + |lit|;
      Some(url[s..RunEnd(url, s)])
  }

  /** The regex matches exactly when the pattern occurs somewhere, and
      then the group holds the id run after the leftmost occurrence. */
  lemma CaptureSpec(url: string, lit: string)
    ensures Capture(url, lit).Some? <==> HasMatch(url, lit)
    ensures Capture(url, lit).Some? ==> Captures(url, lit, Capture(url, lit).value)
  {
    FirstMatchSpec(url, lit, 0);
    match FirstMatch(url, lit, 0)
    case None =>
    case Some(p) =>
      var s := p + |lit|;
      var id := url[s..RunEnd(url, s)];
      assert LeftmostMatch(url, lit, p);
      assert RunIs(url, s, id);
  }

  /** The match is deterministic: a pattern captures at most one id. */
  lemma CapturesUnique(url: string, lit: string, a: string, b: string)
    requires Captures(url, lit, a) && Captures(url, lit, b)
    ensures a == b
  {
    var p: nat :| p < |url| && LeftmostMatch(url, lit, p) && RunIs(url, p + |lit|, a);
    var p': nat :| p' < |url| && LeftmostMatch(url, lit, p') && RunIs(url, p' + |lit|, b);
    LeftmostUnique(url, lit, p, p');
    RunUnique(url, p + |lit|, a, b);
  }

  /** Only one position is the leftmost match. */
  lemma LeftmostUnique(url: string, lit: string, p: nat, p': nat)
    requires LeftmostMatch(url, lit, p) && LeftmostMatch(url, lit, p')
    ensures p == p'
  {
    if p < p' {
      assert false;
    } else if p' < p {
      assert false;
    }
  }

  /** Only one id is the maximal run from a given start. */
  lemma RunUnique(url: string, start: nat, a: string, b: string)
    requires RunIs(url, start, a) && RunIs(url, start, b)
    ensures a == b
  {
    forall i | start <= i < start + |a| ensures IsIdChar(url[i]) {
      assert url[i] == a[i - start];
    }
    forall i | start <= i < start + |b| ensures IsIdChar(url[i]) {
      assert url[i] == b[i - start];
    }
    RunEndAt(url, start, start + |a|);
    RunEndAt(url, start, start + |b|);
  }

  /** A maximal run of id characters from `from` ends where `RunEnd` says. */
  lemma {:induction false} RunEndAt(url: string, from: nat, e: nat)
    requires from <= e <= |url|
    requires forall i :: from <= i < e ==> IsIdChar(url[i])
    requires e == |url| || !IsIdChar(url[e])
    ensures RunEnd(url, from) == e
    decreases e - from
  {
    if from < e { RunEndAt(url, from + 1, e); }
  }

  /** When `id` is what the pattern captures, `Capture` returns it. */
  lemma CaptureIs(url: string, lit: string, id: string)
    requires Captures(url, lit, id)
    ensures Capture(url, lit) == Some(id)
  {
    var p: nat :| p < |url| && LeftmostMatch(url, lit, p) && RunIs(url, p + |lit|, id);
    assert MatchesAt(url, lit, p);
    CaptureSpec(url, lit);
    CapturesUnique(url, lit, Capture(url, lit).value, id);
  }

  predicate OnChatGpt(url: string) {
    Contains(url, "chatgpt.com") || Contains(url, "chat.openai.com")
  }

  predicate OnGemini(url: string) {
    Contains(url, "gemini.google.com")
  }

  /** `getChatKey()` with `url` for `location.href`. The ChatGPT test comes
      first; when it does not produce a key, the Gemini test is tried. Its
      full contract is `GetChatKeySpec`. */
  function GetChatKey(url: string): (r: Option<string>)
    ensures r.Some? ==> IsChatKey(r.value)
    ensures !OnChatGpt(url) && !OnGemini(url) ==> r.None?
  {
    var gpt := if OnChatGpt(url) then Capture(url, "/c/") else None;
    if gpt.Some? then
      assert (ChatGptTag + gpt.value)[|ChatGptTag|..] == gpt.value;
      Some(ChatGptTag + gpt.value)
    else
      var gem := if OnGemini(url) then Capture(url, "/app/") else None;
      if gem.Some? then
        assert (GeminiTag + gem.value)[|GeminiTag|..] == gem.value;
        Some(GeminiTag + gem.value)
      else None
  }

  /** A key exactly when a provider's host name is present and its path
      pattern matches, ChatGPT first; the key is the provider's tag and
      the captured id. */
  lemma GetChatKeySpec(url: string)
    ensures GetChatKey(url).None? <==>
              !(OnChatGpt(url) && HasMatch(url, "/c/")) && !(OnGemini(url) && HasMatch(url, "/app/"))
    ensures OnChatGpt(url) && HasMatch(url, "/c/") ==>
              var r := GetChatKey(url);
              r.Some? && |r.value| > |ChatGptTag| && r.value[..|ChatGptTag|] == ChatGptTag
              && Captures(url, "/c/", r.value[|ChatGptTag|..])
    ensures !(OnChatGpt(url) && HasMatch(url, "/c/")) && OnGemini(url) && HasMatch(url, "/app/") ==>
              var r := GetChatKey(url);
              r.Some? && |r.value| > |GeminiTag| && r.value[..|GeminiTag|] == GeminiTag
              && Captures(url, "/app/", r.value[|GeminiTag|..])
    ensures GetChatKey(url).Some? ==> IsChatKey(GetChatKey(url).value)
  {
    CaptureSpec(url, "/c/");
    CaptureSpec(url, "/app/");
    var gpt := if OnChatGpt(url) then Capture(url, "/c/") else None;
    if gpt.Some? {
      assert (ChatGptTag + gpt.value)[|ChatGptTag|..] == gpt.value;
      CapturedIsId(url, "/c/", gpt.value);
    } else {
      var gem := if OnGemini(url) then Capture(url, "/app/") else None;
      if gem.Some? {
        assert (GeminiTag + gem.value)[|GeminiTag|..] == gem.value;
        CapturedIsId(url, "/app/", gem.value);
      }
    }
  }

  lemma CapturedIsId(url: string, lit: string, id: string)
    requires Captures(url, lit, id)
    ensures IsId(id)
  {
  }

  /** The match at `start` is the leftmost one when no earlier position
      holds both the first and the last character of `lit`. */
  lemma LeftmostByEnds(url: string, lit: string, start: nat)
    requires |lit| >= 2
    requires MatchesAt(url, lit, start)
    requires forall q: nat :: q < start && q + |lit| < |url| ==>
               url[q] != lit[0] || url[q + |lit| - 1] != lit[|lit| - 1]
    ensures LeftmostMatch(url, lit, start)
  {
    forall q: nat | q < start ensures !MatchesAt(url, lit, q) {
      if q + |lit| < |url| {
        assert url[q..q + |lit|][0] == url[q];
        assert url[q..q + |lit|][|lit| - 1] == url[q + |lit| - 1];
      }
    }
  }

  /** No position holds both the first and the last character of `lit`,
      so the pattern matches nowhere. */
  lemma NoMatchByEnds(url: string, lit: string)
    requires |lit| >= 2
    requires forall q: nat :: q + |lit| < |url| ==>
               url[q] != lit[0] || url[q + |lit| - 1] != lit[|lit| - 1]
    ensures !HasMatch(url, lit)
  {
    forall q: nat | q < |url| ensures !MatchesAt(url, lit, q) {
      if q + |lit| < |url| {
        assert url[q..q + |lit|][0] == url[q];
        assert url[q..q + |lit|][|lit| - 1] == url[q + |lit| - 1];
      }
    }
  }

  /** An id that runs to the end of `url` right after a leftmost match is
      what the pattern captures. */
  lemma CapturesTail(url: string, lit: string, p: nat, id: string)
    requires LeftmostMatch(url, lit, p) && IsId(id) && url == url[..p + |lit|] + id
    ensures Captures(url, lit, id)
  {
    assert url[p + |lit|..p + |lit| + |id|] == id;
    assert RunIs(url, p + |lit|, id);
  }
}
