/**
 * How a Gmail list row gets the id the extension knows it by: `getEmailId`,
 * `generateUniqueEmailId` (content.js:98-138) and the content tie-break
 * `findPinnedEmailMatch` (content.js:140-156).
 */
module RowIdentity {
  import opened Optional
  import opened JsString
  import opened StringHash
  import opened PinList

  /**
   * The parts of a row the host page owns. The three texts are the `textContent` of
   * the element the source's selectors find (`.bog` or `[data-tooltip]` for the
   * subject, `.yW` or `.zF` for the sender, `.bqe` or `[title*=":"]` for the date),
   * `None` when no such element exists.
   */
  datatype RowContent = RowContent(
    messageId: Option<string>,        // data-message-id
    legacyMessageId: Option<string>,  // data-legacy-message-id
    threadId: Option<string>,         // data-thread-id
    hasButtonCell: bool,              // a `td:first-child` or `div:first-child` to hold a button
    subjectText: Option<string>,
    senderText: Option<string>,
    dateText: Option<string>,
    text: string,                     // the row's own `textContent`
    siblingIndex: int)                // index among the parent's children, -1 without a parent

  /** The extension's pin control inside a row (`.gmail-pin-button`). */
  datatype PinButton = PinButton(emailId: Option<string>, pinnedClass: bool, title: Option<string>)

  /**
   * A row as the content script sees it: the host's content, the `data-pin-email-id`
   * tag the script writes, its pin control if one exists, and whether the pinned
   * highlight (background and left border) is applied.
   */
  datatype Row = Row(content: RowContent, pinTag: Option<string>, button: Option<PinButton>,
                     highlighted: bool)

  /** The trimmed text of an element, or '' when the element is absent. */
  function FieldText(elementText: Option<string>): (r: string)
    ensures elementText.None? ==> r == ""
    ensures elementText.Some? ==> r == Trim(elementText.value)
  {
    match elementText
    case Some(t) => Trim(t)
    case None => ""
  }

  /** The first non-empty native id among message id, legacy message id and thread id. */
  function NativeId(c: RowContent): (r: Option<string>)
    ensures r.Some? ==> r.value != ""
    ensures Truthy(c.messageId) ==> r == c.messageId
    ensures !Truthy(c.messageId) && Truthy(c.legacyMessageId) ==> r == c.legacyMessageId
    ensures !Truthy(c.messageId) && !Truthy(c.legacyMessageId) && Truthy(c.threadId) ==>
              r == c.threadId
    ensures !Truthy(c.messageId) && !Truthy(c.legacyMessageId) && !Truthy(c.threadId) ==>
              r.None?
  {
    if Truthy(c.messageId) then c.messageId
    else if Truthy(c.legacyMessageId) then c.legacyMessageId
    else if Truthy(c.threadId) then c.threadId
    else None
  }

  /** The text hashed for a synthesized id: subject, sender, date and the first 100 characters. */
  function UniqueData(c: RowContent): string {
    FieldText(c.subjectText) + "|" + FieldText(c.senderText) + "|" + FieldText(c.dateText)
      + "|" + Prefix(c.text, 100)
  }

  /** The text `email-`, then the hash, row index and time in decimal, joined by `-` (content.js:128). */
  function SynthesizedId(hash: int, rowIndex: int, now: nat): (r: string)
    ensures |r| > 6 && r[..6] == "email-"
  {
    "email-" + IntToString(hash) + "-" + IntToString(rowIndex) + "-" + IntToString(now)
  }

  /** Reads `-` followed by an integer, returning the integer and the text after it. */
  function ReadDashInt(s: string): Option<(int, string)> {
    if s == [] || s[0] != '-' then None else ReadInt(s[1..])
  }

  /** Reads the hash, row index and time back out of a synthesized id. */
  function DecodeSynthesizedId(s: string): Option<(int, int, int)> {
    if |s| < 6 || s[..6] != "email-" then None
    else match ReadInt(s[6..])
      case None => None
      case Some((hash, rest)) =>
        match ReadDashInt(rest)
        case None => None
        case Some((rowIndex, rest')) =>
          match ReadDashInt(rest')
          case None => None
          case Some((now, rest'')) => if rest'' == [] then Some((hash, rowIndex, now)) else None
  }

  lemma ReadDashIntRoundTrip(i: int, rest: string)
    requires rest == [] || !IsDigit(rest[0])
    ensures ReadDashInt("-" + IntToString(i) + rest) == Some((i, rest))
  {
    assert ("-" + IntToString(i) + rest)[1..] == IntToString(i) + rest;
    IntToStringRoundTrip(i, rest);
  }

  /** The id is the prefix, then the printed hash, then the two dash-led fields. */
  lemma SynthesizedIdShape(hash: int, rowIndex: int, now: nat)
    ensures var s := SynthesizedId(hash, rowIndex, now);
            s[6..] == IntToString(hash) + ("-" + IntToString(rowIndex) + ("-" + IntToString(now)))
  {
    var h, i, t := IntToString(hash), IntToString(rowIndex), IntToString(now);
    assert SynthesizedId(hash, rowIndex, now) == "email-" + (h + ("-" + i + ("-" + t)));
  }

  /** Decoding succeeds when each of the three fields reads back in turn. */
  lemma DecodeFields(s: string, hash: int, rowIndex: int, now: int, tail1: string, tail2: string)
    requires |s| > 6 && s[..6] == "email-"
    requires ReadInt(s[6..]) == Some((hash, tail1))
    requires ReadDashInt(tail1) == Some((rowIndex, tail2))
    requires ReadDashInt(tail2) == Some((now, ""))
    ensures DecodeSynthesizedId(s) == Some((hash, rowIndex, now))
  {
  }

  /** Each field of a synthesized id reads back, leaving the fields after it. */
  lemma SynthesizedIdFields(hash: int, rowIndex: int, now: nat)
    ensures var tail2 := "-" + IntToString(now);
            var tail1 := "-" + IntToString(rowIndex) + tail2;
            && ReadInt(IntToString(hash) + tail1) == Some((hash, tail1))
            && ReadDashInt(tail1) == Some((rowIndex, tail2))
            && ReadDashInt(tail2) == Some((now as int, ""))
  {
    var t := IntToString(now);
    var tail2 := "-" + t;
    var tail1 := "-" + IntToString(rowIndex) + tail2;
    assert tail1[0] == '-' && tail2[0] == '-';
    IntToStringRoundTrip(hash, tail1);
    ReadDashIntRoundTrip(rowIndex, tail2);
    assert tail2 == "-" + t + "";
    ReadDashIntRoundTrip(now, "");
  }

  /** A synthesized id determines the hash, row index and time it was built from. */
  lemma SynthesizedIdDecodes(hash: int, rowIndex: int, now: nat)
    ensures DecodeSynthesizedId(SynthesizedId(hash, rowIndex, now)) == Some((hash, rowIndex, now))
  {
    var tail2 := "-" + IntToString(now);
    var tail1 := "-" + IntToString(rowIndex) + tail2;
    SynthesizedIdShape(hash, rowIndex, now);
    SynthesizedIdFields(hash, rowIndex, now);
    DecodeFields(SynthesizedId(hash, rowIndex, now), hash, rowIndex, now, tail1, tail2);
  }

  /** Two distinct (hash, row index, time) triples never synthesize the same id. */
  lemma SynthesizedIdInjective(h1: int, i1: int, n1: nat, h2: int, i2: int, n2: nat)
    requires SynthesizedId(h1, i1, n1) == SynthesizedId(h2, i2, n2)
    ensures h1 == h2 && i1 == i2 && n1 == n2
  {
    SynthesizedIdDecodes(h1, i1, n1);
    SynthesizedIdDecodes(h2, i2, n2);
  }

  /** An id together with the row after the id has been written to its tag. */
  datatype Identified = Identified(id: string, row: Row)

  /**
   * `generateUniqueEmailId` (content.js:98-132): adopt a native id, or synthesize one
   * from the hash of the row's text, its position and the time `now`; either way the
   * id is written to the row's `data-pin-email-id` tag.
   */
  function GenerateUniqueEmailId(row: Row, now: nat): (r: Identified)
    ensures r.id != ""
    ensures r.row == row.(pinTag := Some(r.id))
    ensures NativeId(row.content).Some? ==> r.id == NativeId(row.content).value
    ensures NativeId(row.content).None? ==>
              r.id == SynthesizedId(Hash(UniqueData(row.content)), row.content.siblingIndex, now)
  {
    var id := match NativeId(row.content)
      case Some(native) => native
      case None => SynthesizedId(Hash(UniqueData(row.content)), row.content.siblingIndex, now);
    Identified(id, row.(pinTag := Some(id)))
  }

  /** `getEmailId` (content.js:134-138): a truthy tag wins; otherwise generate one. */
  function GetEmailId(row: Row, now: nat): (r: Identified)
    ensures r.id != ""
    ensures r.row == row.(pinTag := Some(r.id))
    ensures Truthy(row.pinTag) ==> r.id == row.pinTag.value && r.row == row
    ensures !Truthy(row.pinTag) ==> r == GenerateUniqueEmailId(row, now)
  {
    if Truthy(row.pinTag) then Identified(row.pinTag.value, row)
    else GenerateUniqueEmailId(row, now)
  }

  /** Asking again for the id of a row already asked returns the same id and changes nothing. */
  lemma GetEmailIdStable(row: Row, now: nat, later: nat)
    ensures GetEmailId(GetEmailId(row, now).row, later) == GetEmailId(row, now)
  {
  }

  /** A stored record matches a row whose trimmed subject and sender are `subject` and `sender`. */
  predicate ContentMatches(e: PinnedEmail, subject: string, sender: string) {
    e.subject != "" && e.sender != "" && Trim(e.subject) == subject && Trim(e.sender) == sender
  }

  /** The first record at or after `from` that matches, if any. */
  function FirstContentMatchFrom(pins: seq<PinnedEmail>, subject: string, sender: string, from: nat): (r: Option<nat>)
    requires from <= |pins|
    ensures r.Some? ==> from <= r.value < |pins| && ContentMatches(pins[r.value], subject, sender)
    ensures r.Some? ==> forall j :: from <= j < r.value ==> !ContentMatches(pins[j], subject, sender)
    ensures r.None? ==> forall j :: from <= j < |pins| ==> !ContentMatches(pins[j], subject, sender)
    decreases |pins| - from
  {
    if from == |pins| then None
    else if ContentMatches(pins[from], subject, sender) then Some(from)
    else FirstContentMatchFrom(pins, subject, sender, from + 1)
  }

  /** The index of the first record that matches, if any (content.js:151-155). */
  function FirstContentMatch(pins: seq<PinnedEmail>, subject: string, sender: string): (r: Option<nat>)
    ensures r.Some? ==> r.value < |pins| && ContentMatches(pins[r.value], subject, sender)
    ensures r.Some? ==> forall j :: 0 <= j < r.value ==> !ContentMatches(pins[j], subject, sender)
    ensures r.None? ==> forall j :: 0 <= j < |pins| ==> !ContentMatches(pins[j], subject, sender)
  {
    FirstContentMatchFrom(pins, subject, sender, 0)
  }

  /**
   * `findPinnedEmailMatch` (content.js:140-156): nothing when the row shows neither a
   * subject nor a sender, otherwise the first stored record whose non-empty subject and
   * sender, trimmed, equal the row's.
   */
  function FindPinnedEmailMatch(pins: seq<PinnedEmail>, c: RowContent): (r: Option<PinnedEmail>)
    ensures FieldText(c.subjectText) == "" && FieldText(c.senderText) == "" ==> r.None?
    ensures r.Some? ==>
              exists i :: 0 <= i < |pins| && pins[i] == r.value
                && ContentMatches(pins[i], FieldText(c.subjectText), FieldText(c.senderText))
                && forall j :: 0 <= j < i ==>
                     !ContentMatches(pins[j], FieldText(c.subjectText), FieldText(c.senderText))
    ensures r.None? && (FieldText(c.subjectText) != "" || FieldText(c.senderText) != "") ==>
              forall j :: 0 <= j < |pins| ==>
                !ContentMatches(pins[j], FieldText(c.subjectText), FieldText(c.senderText))
  {
    var subject := FieldText(c.subjectText);
    var sender := FieldText(c.senderText);
    if subject == "" && sender == "" then None
    else match FirstContentMatch(pins, subject, sender)
      case Some(i) => Some(pins[i])
      case None => None
  }

  /** The first match is the first index whose record matches. */
  lemma FirstContentMatchAt(pins: seq<PinnedEmail>, subject: string, sender: string, k: nat)
    requires k < |pins| && ContentMatches(pins[k], subject, sender)
    requires forall j :: 0 <= j < k ==> !ContentMatches(pins[j], subject, sender)
    ensures FirstContentMatch(pins, subject, sender) == Some(k)
  {
  }

  /** With no record matching, there is no first match. */
  lemma NoContentMatch(pins: seq<PinnedEmail>, subject: string, sender: string)
    requires forall j :: 0 <= j < |pins| ==> !ContentMatches(pins[j], subject, sender)
    ensures FirstContentMatch(pins, subject, sender) == None
  {
  }

  /** A record in front that does not match shifts the first match by one. */
  lemma FirstContentMatchCons(e: PinnedEmail, pins: seq<PinnedEmail>, subject: string, sender: string)
    requires !ContentMatches(e, subject, sender)
    ensures FirstContentMatch([e] + pins, subject, sender) ==
              match FirstContentMatch(pins, subject, sender)
              case Some(k) => Some(k + 1)
              case None => None
  {
    var q := [e] + pins;
    match FirstContentMatch(pins, subject, sender)
    case Some(k) =>
      assert forall j :: 0 < j <= k ==> q[j] == pins[j - 1];
      FirstContentMatchAt(q, subject, sender, k + 1);
    case None =>
      assert forall j :: 0 < j < |q| ==> q[j] == pins[j - 1];
      NoContentMatch(q, subject, sender);
  }

  /** A record in front that does not match the row changes nothing about the match. */
  lemma UnmatchedHeadInvisible(e: PinnedEmail, pins: seq<PinnedEmail>, c: RowContent)
    requires !ContentMatches(e, FieldText(c.subjectText), FieldText(c.senderText))
    ensures FindPinnedEmailMatch([e] + pins, c) == FindPinnedEmailMatch(pins, c)
  {
    var subject := FieldText(c.subjectText);
    var sender := FieldText(c.senderText);
    FirstContentMatchCons(e, pins, subject, sender);
  }
}
