/**
 * The popup (popup.js): the list it renders from storage, the `unpinEmail` filter it
 * writes back, and `escapeHtml`, which makes stored text safe to put into markup.
 */
module Popup {
  import opened Optional
  import opened Seqs
  import opened PinList

  /** Every occurrence of the character `c` in `s` replaced by `rep`, left to right. */
  function ReplaceAll(s: string, c: char, rep: string): (r: string)
    ensures c !in s ==> r == s
  {
    if s == [] then []
    else (if s[0] == c then rep else [s[0]]) + ReplaceAll(s[1..], c, rep)
  }

  /** Replacing distributes over concatenation. */
  lemma {:induction false} ReplaceAllConcat(a: string, b: string, c: char, rep: string)
    ensures ReplaceAll(a + b, c, rep) == ReplaceAll(a, c, rep) + ReplaceAll(b, c, rep)
  {
    if a == [] {
      assert a + b == b;
    } else {
      assert (a + b)[1..] == a[1..] + b;
      ReplaceAllConcat(a[1..], b, c, rep);
    }
  }

  /** The five replacements of `escapeHtml`, `&` first (popup.js:74-78). */
  function ReplaceChain(s: string): string {
    var amp := ReplaceAll(s, '&', "&amp;");
    var lt := ReplaceAll(amp, '<', "&lt;");
    var gt := ReplaceAll(lt, '>', "&gt;");
    var quot := ReplaceAll(gt, '"', "&quot;");
    ReplaceAll(quot, '\'', "&#039;")
  }

  /** `escapeHtml(text)` (popup.js:72-79): '' for a falsy `text` (`null`, `undefined`, ''). */
  function EscapeHtml(text: Option<string>): (r: string)
    ensures text.None? || text.value == "" ==> r == ""
  {
    if text.None? || text.value == "" then "" else ReplaceChain(text.value)
  }

  /** The entity for one character, or the character itself. */
  function EscapeChar(c: char): string {
    match c
    case '&' => "&amp;"
    case '<' => "&lt;"
    case '>' => "&gt;"
    case '"' => "&quot;"
    case '\'' => "&#039;"
    case _ => [c]
  }

  /** The reference encoder: each character replaced by `EscapeChar` independently. */
  function EscapeEach(s: string): string {
    if s == [] then [] else EscapeChar(s[0]) + EscapeEach(s[1..])
  }

  /** Replacing in a one-character string. */
  lemma ReplaceAllSingle(c: char, d: char, rep: string)
    ensures ReplaceAll([c], d, rep) == if c == d then rep else [c]
  {
    assert [c][1..] == [];
  }

  /** The last four replacements leave a string without their characters alone. */
  lemma ReplaceChainTailAbsent(s: string)
    requires '<' !in s && '>' !in s && '"' !in s && '\'' !in s
    ensures ReplaceAll(ReplaceAll(ReplaceAll(ReplaceAll(s, '<', "&lt;"), '>', "&gt;"),
                                  '"', "&quot;"), '\'', "&#039;") == s
  {
  }

  /** The replacement chain applied to one character. */
  lemma ReplaceChainChar(c: char)
    ensures ReplaceChain([c]) == EscapeChar(c)
  {
    ReplaceAllSingle(c, '&', "&amp;");
    if c == '&' {
      ReplaceChainTailAbsent("&amp;");
    } else if c == '<' {
      ReplaceAllSingle(c, '<', "&lt;");
      var lt := "&lt;";
      assert '>' !in lt && '"' !in lt && '\'' !in lt;
    } else if c == '>' {
      ReplaceAllSingle(c, '<', "&lt;");
      ReplaceAllSingle(c, '>', "&gt;");
      var gt := "&gt;";
      assert '"' !in gt && '\'' !in gt;
    } else if c == '"' {
      ReplaceAllSingle(c, '<', "&lt;");
      ReplaceAllSingle(c, '>', "&gt;");
      ReplaceAllSingle(c, '"', "&quot;");
      assert '\'' !in "&quot;";
    } else {
      ReplaceAllSingle(c, '<', "&lt;");
      ReplaceAllSingle(c, '>', "&gt;");
      ReplaceAllSingle(c, '"', "&quot;");
      ReplaceAllSingle(c, '\'', "&#039;");
    }
  }

  /** The replacement chain acts on a string piece by piece. */
  lemma ReplaceChainConcat(a: string, b: string)
    ensures ReplaceChain(a + b) == ReplaceChain(a) + ReplaceChain(b)
  {
    var a1, b1 := ReplaceAll(a, '&', "&amp;"), ReplaceAll(b, '&', "&amp;");
    ReplaceAllConcat(a, b, '&', "&amp;");
    var a2, b2 := ReplaceAll(a1, '<', "&lt;"), ReplaceAll(b1, '<', "&lt;");
    ReplaceAllConcat(a1, b1, '<', "&lt;");
    var a3, b3 := ReplaceAll(a2, '>', "&gt;"), ReplaceAll(b2, '>', "&gt;");
    ReplaceAllConcat(a2, b2, '>', "&gt;");
    var a4, b4 := ReplaceAll(a3, '"', "&quot;"), ReplaceAll(b3, '"', "&quot;");
    ReplaceAllConcat(a3, b3, '"', "&quot;");
    ReplaceAllConcat(a4, b4, '\'', "&#039;");
  }

  /**
   * `escapeHtml` is the per-character encoding: since `&` is replaced first, the
   * entities the later replacements introduce are never escaped again.
   */
  lemma {:induction false} EscapeHtmlIsPerCharacter(s: string)
    ensures EscapeHtml(Some(s)) == EscapeEach(s)
  {
    if s != [] {
      assert s == [s[0]] + s[1..];
      ReplaceChainConcat([s[0]], s[1..]);
      ReplaceChainChar(s[0]);
      EscapeHtmlIsPerCharacter(s[1..]);
      if s[1..] == [] {
        assert ReplaceChain(s[1..]) == [];
      }
    }
  }

  predicate IsMarkupSpecial(c: char) {
    c == '<' || c == '>' || c == '"' || c == '\''
  }

  /** The reference encoding never produces `<`, `>`, `"` or `'`. */
  lemma {:induction false} EscapeEachNoSpecial(s: string)
    ensures forall k :: 0 <= k < |EscapeEach(s)| ==> !IsMarkupSpecial(EscapeEach(s)[k])
  {
    if s != [] {
      EscapeEachNoSpecial(s[1..]);
      var head := EscapeChar(s[0]);
      assert forall k :: 0 <= k < |head| ==> !IsMarkupSpecial(head[k]);
    }
  }

  /** The output of `escapeHtml` contains no `<`, `>`, `"` or `'`. */
  lemma EscapeHtmlNoSpecial(text: Option<string>)
    ensures forall k :: 0 <= k < |EscapeHtml(text)| ==> !IsMarkupSpecial(EscapeHtml(text)[k])
  {
    if text.Some? {
      EscapeHtmlIsPerCharacter(text.value);
      EscapeEachNoSpecial(text.value);
    }
  }

  /** The number of occurrences of `c` in `s`. */
  function Count(s: string, c: char): nat {
    multiset(s)[c]
  }

  /** How much longer one character's encoding is than the character. */
  function Growth(c: char): nat {
    if c == '&' then 4 else if c == '<' || c == '>' then 3
    else if c == '"' || c == '\'' then 5 else 0
  }

  lemma EscapeCharLength(c: char)
    ensures |EscapeChar(c)| == 1 + Growth(c)
  {
  }

  /** Counting splits at the first character. */
  lemma CountCons(s: string, c: char)
    requires s != []
    ensures Count(s, c) == (if s[0] == c then 1 else 0) + Count(s[1..], c)
  {
    assert s == [s[0]] + s[1..];
    assert multiset(s) == multiset{s[0]} + multiset(s[1..]);
  }

  /** Each `&` grows the text by 4, each `<` or `>` by 3, each `"` or `'` by 5. */
  lemma {:induction false} EscapeEachLength(s: string)
    ensures |EscapeEach(s)| == |s| + 4 * Count(s, '&') + 3 * Count(s, '<') + 3 * Count(s, '>')
                                   + 5 * Count(s, '"') + 5 * Count(s, '\'')
  {
    if s != [] {
      EscapeEachLength(s[1..]);
      EscapeCharLength(s[0]);
      CountCons(s, '&');
      CountCons(s, '<');
      CountCons(s, '>');
      CountCons(s, '"');
      CountCons(s, '\'');
    }
  }

  /** The length of `escapeHtml(s)` is fixed by the counts of the five special characters. */
  lemma EscapeHtmlLength(s: string)
    ensures |EscapeHtml(Some(s))| == |s| + 4 * Count(s, '&') + 3 * Count(s, '<')
                                     + 3 * Count(s, '>') + 5 * Count(s, '"') + 5 * Count(s, '\'')
  {
    EscapeHtmlIsPerCharacter(s);
    EscapeEachLength(s);
  }

  /** Decodes the five entities `escapeHtml` produces and keeps every other character. */
  function UnescapeHtml(s: string): string
    decreases |s|
  {
    if s == [] then []
    else if s[0] != '&' then [s[0]] + UnescapeHtml(s[1..])
    else if |s| >= 5 && s[..5] == "&amp;" then "&" + UnescapeHtml(s[5..])
    else if |s| >= 4 && s[..4] == "&lt;" then "<" + UnescapeHtml(s[4..])
    else if |s| >= 4 && s[..4] == "&gt;" then ">" + UnescapeHtml(s[4..])
    else if |s| >= 6 && s[..6] == "&quot;" then "\"" + UnescapeHtml(s[6..])
    else if |s| >= 6 && s[..6] == "&#039;" then "'" + UnescapeHtml(s[6..])
    else "&" + UnescapeHtml(s[1..])
  }

  /** The decoder reads one character's encoding back off the front of the text. */
  lemma UnescapeHead(c: char, tail: string)
    ensures UnescapeHtml(EscapeChar(c) + tail) == [c] + UnescapeHtml(tail)
  {
    var e := EscapeChar(c) + tail;
    if c == '&' {
      assert e[..5] == "&amp;" && e[5..] == tail;
    } else if c == '<' {
      assert e[..4] == "&lt;" && e[4..] == tail;
      assert e[1] == 'l';
      assert |e| >= 5 ==> e[..5][1] == 'l';
    } else if c == '>' {
      assert e[..4] == "&gt;" && e[4..] == tail;
      assert e[1] == 'g';
      assert |e| >= 5 ==> e[..5][1] == 'g';
      assert e[..4][1] == 'g';
    } else if c == '"' {
      assert e[..6] == "&quot;" && e[6..] == tail;
      assert e[1] == 'q';
    } else if c == '\'' {
      assert e[..6] == "&#039;" && e[6..] == tail;
      assert e[1] == '#';
    } else {
      assert e == [c] + tail;
      assert e[0] == c && e[1..] == tail;
    }
  }

  /** Decoding the escaped text gives the original text back: escaping loses nothing. */
  lemma {:induction false} EscapeEachRoundTrip(s: string)
    ensures UnescapeHtml(EscapeEach(s)) == s
  {
    if s != [] {
      UnescapeHead(s[0], EscapeEach(s[1..]));
      EscapeEachRoundTrip(s[1..]);
      assert s == [s[0]] + s[1..];
    }
  }

  /** `escapeHtml` is injective on strings, through its decoder. */
  lemma EscapeHtmlRoundTrip(s: string)
    ensures UnescapeHtml(EscapeHtml(Some(s))) == s
  {
    EscapeHtmlIsPerCharacter(s);
    EscapeEachRoundTrip(s);
  }

  /** `unpinEmail(id)` (popup.js:57-60): the stored list without any record carrying `id`. */
  function UnpinEmail(pins: seq<PinnedEmail>, id: string): (r: seq<PinnedEmail>)
    ensures !IsPinned(r, id)
    ensures forall e :: e in pins && e.id != id ==> e in r
    ensures forall e :: e in r ==> e in pins
  {
    var r := Filter((e: PinnedEmail) => e.id != id, pins);
    assert forall j :: 0 <= j < |r| ==> r[j] in r;
    r
  }

  /** The records that survive the popup's filter keep their original relative order. */
  lemma UnpinEmailKeepsOrder(pins: seq<PinnedEmail>, id: string)
    ensures IsSubsequence(UnpinEmail(pins, id), pins)
  {
    FilterIsSubsequence((e: PinnedEmail) => e.id != id, pins);
  }

  /**
   * With distinct ids the popup's filter and the content script's splice agree, so the
   * `emailUnpinned` message leaves both copies of the list equal.
   */
  lemma {:induction false} UnpinEmailMatchesSplice(pins: seq<PinnedEmail>, id: string)
    requires DistinctIds(pins)
    ensures UnpinEmail(pins, id) == UnpinById(pins, id)
  {
    var p := (e: PinnedEmail) => e.id != id;
    if pins != [] {
      if pins[0].id == id {
        FilterKeepsAll(p, pins[1..]);
        assert UnpinById(pins, id) == pins[1..];
      } else {
        assert DistinctIds(pins[1..]);
        UnpinEmailMatchesSplice(pins[1..], id);
        UnpinByIdCons(pins, id);
      }
    }
  }

  /** The popup's filter keeps a well-formed list well formed. */
  lemma UnpinEmailWellFormed(pins: seq<PinnedEmail>, id: string)
    requires WellFormed(pins)
    ensures WellFormed(UnpinEmail(pins, id))
  {
    UnpinEmailMatchesSplice(pins, id);
    UnpinByIdWellFormed(pins, id);
  }

  /** One entry of the rendered list; `formatTime` is not modelled, so the raw timestamp stays. */
  datatype ItemView = ItemView(subjectHtml: string, senderHtml: string, timestamp: int,
                               unpinIdHtml: string)

  datatype PopupView = EmptyState | Items(items: seq<ItemView>)

  function ItemOf(e: PinnedEmail): ItemView {
    ItemView(EscapeHtml(Some(e.subject)), EscapeHtml(Some(e.sender)), e.timestamp,
             EscapeHtml(Some(e.id)))
  }

  /**
   * `loadPinnedEmailsPopup` (popup.js:23-45): the empty-state message for an empty list,
   * otherwise one entry per record in reverse stored order, oldest pin first.
   */
  function LoadPinnedEmailsPopup(pins: seq<PinnedEmail>): (v: PopupView)
    ensures v.EmptyState? <==> |pins| == 0
    ensures v.Items? ==> |v.items| == |pins|
    ensures v.Items? ==> forall k :: 0 <= k < |pins| ==> v.items[k] == ItemOf(pins[|pins| - 1 - k])
  {
    if |pins| == 0 then EmptyState
    else
      var shown := Reverse(pins);
      Items(seq(|shown|, k requires 0 <= k < |shown| => ItemOf(shown[k])))
  }

  /** A newly pinned email is shown last in the popup, after every earlier pin. */
  lemma NewPinShownLast(pins: seq<PinnedEmail>, id: string, subjectText: Option<string>,
                        senderText: Option<string>, now: int)
    requires !IsPinned(pins, id) && |pins| < MAX_PINS
    ensures var after := Toggle(pins, id, subjectText, senderText, now).pins;
            var v := LoadPinnedEmailsPopup(after);
            && v.Items? && |v.items| == |pins| + 1
            && v.items[|pins|] == ItemOf(after[0])
            && after[0].id == id
            && forall k :: 0 <= k < |pins| ==> v.items[k] == ItemOf(pins[|pins| - 1 - k])
  {
  }
}
