/**
 * The per-row work of `processVisibleEmails` (content.js:162-219), the button and
 * highlight updates of `syncEmailState` and `addPinButton` (content.js:221-286), and
 * the list and row effect of a click on a pin button, `togglePinEmail`
 * (content.js:348-388).
 */
module Reconciler {
  import opened Optional
  import opened JsString
  import opened PinList
  import opened RowIdentity

  const PINNED_TITLE: string := "Unpin this email"
  const UNPINNED_TITLE: string := "Pin this email"

  /**
   * `syncEmailState(row, id)`: the button's `pinned` class and title and the row's
   * highlight are set from whether `id` is pinned, and from nothing else.
   */
  function SyncEmailState(pins: seq<PinnedEmail>, row: Row, id: string): (r: Row)
    ensures r.highlighted == IsPinned(pins, id)
    ensures r.content == row.content && r.pinTag == row.pinTag
    ensures r.button.Some? <==> row.button.Some?
    ensures r.button.Some? ==>
              && r.button.value.emailId == row.button.value.emailId
              && r.button.value.pinnedClass == r.highlighted
              && r.button.value.title == Some(if r.highlighted then PINNED_TITLE else UNPINNED_TITLE)
  {
    var pinned := IsPinned(pins, id);
    var button := match row.button
      case Some(b) => Some(b.(pinnedClass := pinned,
                              title := Some(if pinned then PINNED_TITLE else UNPINNED_TITLE)))
      case None => None;
    row.(button := button, highlighted := pinned)
  }

  /**
   * `addPinButton(row, id)`: when the row has no button and has a cell to hold one, a
   * button carrying `id` is inserted and its state synchronised; otherwise nothing.
   */
  function AddPinButton(pins: seq<PinnedEmail>, row: Row, id: string): (r: Row)
    ensures row.button.Some? || !row.content.hasButtonCell ==> r == row
    ensures row.button.None? && row.content.hasButtonCell ==>
              && r.button.Some? && r.button.value.emailId == Some(id)
              && r.button.value.pinnedClass == IsPinned(pins, id)
              && r.highlighted == IsPinned(pins, id)
              && r.content == row.content && r.pinTag == row.pinTag
  {
    if row.button.Some? || !row.content.hasButtonCell then row
    else SyncEmailState(pins, row.(button := Some(PinButton(Some(id), false, None))), id)
  }

  /**
   * The id a row ends up with in `processVisibleEmails` (content.js:170-193). It starts
   * from `getEmailId`; only when that id is not pinned and some email is pinned may it
   * be replaced: by the id already on the row's button if that one is pinned, or, for
   * a row without a button, by the id of the first stored record matching its content.
   */
  function ResolveRowId(pins: seq<PinnedEmail>, row: Row, now: nat): (id: string)
    ensures var base := GetEmailId(row, now).id;
            && (IsPinned(pins, base) || |pins| == 0 ==> id == base)
            && (id != base ==> IsPinned(pins, id))
            && (id != base && row.button.Some? ==> row.button.value.emailId == Some(id))
            && (id != base && row.button.None? ==>
                  exists e :: FindPinnedEmailMatch(pins, row.content) == Some(e) && e.id == id)
    ensures !IsPinned(pins, GetEmailId(row, now).id) && |pins| > 0 && row.button.Some?
            && Truthy(row.button.value.emailId) && IsPinned(pins, row.button.value.emailId.value)
            ==> id == row.button.value.emailId.value
    ensures !IsPinned(pins, GetEmailId(row, now).id) && |pins| > 0 && row.button.None?
            && FindPinnedEmailMatch(pins, row.content).Some?
            ==> id == FindPinnedEmailMatch(pins, row.content).value.id
  {
    var base := GetEmailId(row, now).id;
    if !IsPinned(pins, base) && |pins| > 0 then
      match row.button
      case Some(b) =>
        if Truthy(b.emailId) && b.emailId.value != base && IsPinned(pins, b.emailId.value)
        then b.emailId.value
        else base
      case None =>
        // The source tests again that the row has no button; here it never has.
        match FindPinnedEmailMatch(pins, row.content)
        case Some(m) =>
          PinnedIdIsPinned(pins, m);
          m.id
        case None => base
    else base
  }

  /** A record found in the list is pinned under its own id. */
  lemma PinnedIdIsPinned(pins: seq<PinnedEmail>, e: PinnedEmail)
    requires exists i :: 0 <= i < |pins| && pins[i] == e
    ensures IsPinned(pins, e.id)
  {
  }

  /**
   * One row of `processVisibleEmails`: tag it with its resolved id, make sure it has a
   * button carrying that id (if it has a cell for one), then synchronise its state.
   */
  function ProcessRow(pins: seq<PinnedEmail>, row: Row, now: nat): (r: Row)
    ensures r.pinTag == Some(ResolveRowId(pins, row, now))
    ensures r.content == row.content
    ensures r.highlighted == IsPinned(pins, ResolveRowId(pins, row, now))
    ensures r.button.Some? <==> row.button.Some? || row.content.hasButtonCell
    ensures r.button.Some? ==>
              && r.button.value.emailId == Some(ResolveRowId(pins, row, now))
              && r.button.value.pinnedClass == r.highlighted
  {
    var id := ResolveRowId(pins, row, now);
    var tagged := row.(pinTag := Some(id));
    var withButton := match tagged.button
      case None => AddPinButton(pins, tagged, id)
      case Some(b) => if b.emailId != Some(id) then tagged.(button := Some(b.(emailId := Some(id))))
                      else tagged;
    SyncEmailState(pins, withButton, id)
  }

  /** The id a row is resolved to is never empty when the stored ids are not. */
  lemma ResolveRowIdNonEmpty(pins: seq<PinnedEmail>, row: Row, now: nat)
    requires WellFormed(pins)
    ensures ResolveRowId(pins, row, now) != ""
  {
    var id := ResolveRowId(pins, row, now);
    if id != GetEmailId(row, now).id && row.button.None? {
      var e :| FindPinnedEmailMatch(pins, row.content) == Some(e) && e.id == id;
      var i :| 0 <= i < |pins| && pins[i] == e;
    }
  }

  /**
   * Processing a row a second time, with the pinned list unchanged, leaves it exactly
   * as the first pass did: one button, the same id, the same state.
   */
  lemma ProcessRowIdempotent(pins: seq<PinnedEmail>, row: Row, now: nat, later: nat)
    requires WellFormed(pins)
    ensures ProcessRow(pins, ProcessRow(pins, row, now), later) == ProcessRow(pins, row, now)
  {
    var once := ProcessRow(pins, row, now);
    var id := ResolveRowId(pins, row, now);
    ResolveRowIdNonEmpty(pins, row, now);
    assert GetEmailId(once, later).id == id;
    var base := GetEmailId(row, now).id;
    if !IsPinned(pins, id) && |pins| > 0 {
      assert id == base;
      if once.button.None? {
        assert row.button.None?;
        assert FindPinnedEmailMatch(pins, once.content) == FindPinnedEmailMatch(pins, row.content);
      }
    }
    assert ResolveRowId(pins, once, later) == id;
  }

  /**
   * `processVisibleEmails` over the visible rows, or nothing while a pass is already
   * running (`isProcessing`, content.js:163-164): each row is processed on its own, in
   * order, and is tagged with its resolved id. `clock(i)` is the time when row `i` is
   * processed.
   */
  function ProcessVisibleEmails(pins: seq<PinnedEmail>, rows: seq<Row>, isProcessing: bool,
                                clock: nat -> nat): (r: seq<Row>)
    ensures isProcessing ==> r == rows
    ensures |r| == |rows|
    ensures !isProcessing ==> forall i :: 0 <= i < |r| ==>
              && r[i].content == rows[i].content
              && r[i].pinTag.Some?
              && r[i].highlighted == IsPinned(pins, r[i].pinTag.value)
    ensures !isProcessing ==> forall i :: 0 <= i < |r| ==>
              && r[i] == ProcessRow(pins, rows[i], clock(i))
              && r[i].pinTag == Some(ResolveRowId(pins, rows[i], clock(i)))
  {
    if isProcessing then rows
    else
      var r := seq(|rows|, i requires 0 <= i < |rows| => ProcessRow(pins, rows[i], clock(i)));
      assert forall i :: 0 <= i < |r| ==> r[i] == ProcessRow(pins, rows[i], clock(i));
      r
  }

  /** A second pass over the rows of a first pass, with the list unchanged, changes nothing. */
  lemma ProcessVisibleEmailsIdempotent(pins: seq<PinnedEmail>, rows: seq<Row>,
                                       clock: nat -> nat, clock': nat -> nat)
    requires WellFormed(pins)
    ensures var once := ProcessVisibleEmails(pins, rows, false, clock);
            ProcessVisibleEmails(pins, once, false, clock') == once
  {
    var once := ProcessVisibleEmails(pins, rows, false, clock);
    forall i | 0 <= i < |rows|
      ensures ProcessRow(pins, once[i], clock'(i)) == once[i]
    {
      ProcessRowIdempotent(pins, rows[i], clock(i), clock'(i));
    }
  }

  /** The outcome of a click on a row's pin button. */
  datatype RowToggled =
    | Ignored                                                     // no id: `return` at content.js:349
    | Applied(pins: seq<PinnedEmail>, row: Row, effect: ToggleEffect)

  /** The id `togglePinEmail` acts on: the row's tag if truthy, else the id it was given. */
  function ActualEmailId(row: Row, emailId: string): (r: string)
    ensures emailId != "" ==> r != ""
    ensures Truthy(row.pinTag) ==> r == row.pinTag.value
  {
    if Truthy(row.pinTag) then row.pinTag.value else emailId
  }

  /**
   * `togglePinEmail(row, emailId)` (content.js:348-385), apart from persistence,
   * messaging and the delayed moves: the list changes as `Toggle` says, and the row's
   * state is synchronised unless the pin was refused for capacity.
   */
  function TogglePinEmail(pins: seq<PinnedEmail>, row: Row, emailId: string, now: int): (r: RowToggled)
    ensures emailId == "" <==> r.Ignored?
    ensures r.Applied? ==>
              var id := ActualEmailId(row, emailId);
              var t := Toggle(pins, id, row.content.subjectText, row.content.senderText, now);
              && r.pins == t.pins && r.effect == t.effect
              && r.row.content == row.content && r.row.pinTag == row.pinTag
              && (r.effect == CapacityReached ==> r.row == row && r.pins == pins)
              && (r.effect == Pinned ==> r.row.highlighted && r.pins[0].id == id)
              && (r.effect == Unpinned ==> r.row.highlighted == IsPinned(r.pins, id))
  {
    if emailId == "" then Ignored
    else
      var id := ActualEmailId(row, emailId);
      var t := Toggle(pins, id, row.content.subjectText, row.content.senderText, now);
      match t.effect
      case CapacityReached => Applied(t.pins, row, CapacityReached)
      case _ => Applied(t.pins, SyncEmailState(t.pins, row, id), t.effect)
  }

  /** On a list with distinct ids, a click that unpins leaves the row unhighlighted and the id gone. */
  lemma TogglePinEmailUnpins(pins: seq<PinnedEmail>, row: Row, emailId: string, now: int)
    requires DistinctIds(pins)
    requires emailId != "" && IsPinned(pins, ActualEmailId(row, emailId))
    ensures var r := TogglePinEmail(pins, row, emailId, now);
            r.Applied? && r.effect == Unpinned && !r.row.highlighted
            && !IsPinned(r.pins, ActualEmailId(row, emailId))
  {
    var id := ActualEmailId(row, emailId);
    RemoveAtDistinct(pins, IndexOf(pins, id));
  }

  /** What can change the content script's pinned list. */
  datatype Action =
    | Click(row: Row, emailId: string, now: int)   // a pin button click, `togglePinEmail`
    | UnpinMessage(id: string)                     // an `emailUnpinned` message, `unpinEmailById`

  function Apply(pins: seq<PinnedEmail>, a: Action): seq<PinnedEmail> {
    match a
    case Click(row, emailId, now) =>
      (match TogglePinEmail(pins, row, emailId, now)
       case Ignored => pins
       case Applied(p, _, _) => p)
    case UnpinMessage(id) => UnpinById(pins, id)
  }

  /** The list after the actions `acts`, in order. */
  function Run(pins: seq<PinnedEmail>, acts: seq<Action>): seq<PinnedEmail>
    decreases |acts|
  {
    if acts == [] then pins else Run(Apply(pins, acts[0]), acts[1..])
  }

  /**
   * From a well-formed list (the empty list on install, background.js:4), any sequence
   * of clicks and unpin messages keeps at most `MAX_PINS` records with distinct,
   * non-empty ids.
   */
  lemma {:induction false} RunWellFormed(pins: seq<PinnedEmail>, acts: seq<Action>)
    requires WellFormed(pins)
    ensures WellFormed(Run(pins, acts))
    decreases |acts|
  {
    if acts != [] {
      match acts[0] {
        case Click(row, emailId, now) =>
          if emailId != "" {
            ToggleWellFormed(pins, ActualEmailId(row, emailId), row.content.subjectText,
                             row.content.senderText, now);
          }
        case UnpinMessage(id) =>
          UnpinByIdWellFormed(pins, id);
      }
      RunWellFormed(Apply(pins, acts[0]), acts[1..]);
    }
  }

  /**
   * After a row whose subject and sender are both present and non-empty once trimmed is
   * pinned, a later rendering of the same email with the same subject and sender text,
   * but without tag or button, is matched back to the new record.
   */
  lemma PinnedRowMatchedByContent(pins: seq<PinnedEmail>, row: Row, emailId: string, now: int,
                                  rerendered: RowContent)
    requires row.content.subjectText.Some? && row.content.senderText.Some?
    requires FieldText(row.content.subjectText) != "" && FieldText(row.content.senderText) != ""
    requires rerendered.subjectText == row.content.subjectText
    requires rerendered.senderText == row.content.senderText
    requires TogglePinEmail(pins, row, emailId, now).Applied?
    requires TogglePinEmail(pins, row, emailId, now).effect == Pinned
    ensures var after := TogglePinEmail(pins, row, emailId, now).pins;
            FindPinnedEmailMatch(after, rerendered) == Some(after[0])
  {
    var after := TogglePinEmail(pins, row, emailId, now).pins;
    var subject := FieldText(row.content.subjectText);
    var sender := FieldText(row.content.senderText);
    PinnedRecordText(pins, row, emailId, now);
    assert ContentMatches(after[0], subject, sender) by {
      TrimIdempotent(row.content.subjectText.value);
      TrimIdempotent(row.content.senderText.value);
    }
    HeadMatchedByContent(after, rerendered);
  }

  /**
   * The other case: a row pinned while its subject or sender is missing, or empty once
   * trimmed, stores a placeholder or '' for it (content.js:369-372), which never equals
   * the '' the row reads back (content.js:143-146, 152-153). Matching by content then
   * finds exactly what it found before the pin, so the new record is never found.
   */
  lemma PinnedRowWithoutTextNotMatched(pins: seq<PinnedEmail>, row: Row, emailId: string, now: int,
                                       rerendered: RowContent)
    requires FieldText(row.content.subjectText) == "" || FieldText(row.content.senderText) == ""
    requires rerendered.subjectText == row.content.subjectText
    requires rerendered.senderText == row.content.senderText
    requires TogglePinEmail(pins, row, emailId, now).Applied?
    requires TogglePinEmail(pins, row, emailId, now).effect == Pinned
    ensures var after := TogglePinEmail(pins, row, emailId, now).pins;
            && after != [] && after[1..] == pins
            && FindPinnedEmailMatch(after, rerendered) == FindPinnedEmailMatch(pins, rerendered)
  {
    var after := TogglePinEmail(pins, row, emailId, now).pins;
    IsPinnedIffIndexFound(pins, ActualEmailId(row, emailId));
    assert after == [after[0]] + pins;
    StoredBlankNeverMatches(row.content.subjectText, "No subject");
    StoredBlankNeverMatches(row.content.senderText, "Unknown sender");
    UnmatchedHeadInvisible(after[0], pins, rerendered);
  }

  /**
   * The text stored for a field that reads back as '' is either '' or a placeholder
   * starting with a non-whitespace character, so it never trims to ''.
   */
  lemma StoredBlankNeverMatches(text: Option<string>, placeholder: string)
    requires placeholder != [] && !IsWhitespace(placeholder[0])
    ensures FieldText(text) == "" ==> var v := Snapshot(text, placeholder); v == "" || Trim(v) != ""
  {
    TrimEmptyIffWhitespace(placeholder);
  }

  /** The record a click prepends carries the row's trimmed subject and sender text. */
  lemma PinnedRecordText(pins: seq<PinnedEmail>, row: Row, emailId: string, now: int)
    requires row.content.subjectText.Some? && row.content.senderText.Some?
    requires TogglePinEmail(pins, row, emailId, now).Applied?
    requires TogglePinEmail(pins, row, emailId, now).effect == Pinned
    ensures var after := TogglePinEmail(pins, row, emailId, now).pins;
            && after != []
            && after[0].subject == FieldText(row.content.subjectText)
            && after[0].sender == FieldText(row.content.senderText)
  {
  }

  /** A list whose first record matches the row's text is matched at that record. */
  lemma HeadMatchedByContent(pins: seq<PinnedEmail>, c: RowContent)
    requires pins != [] && FieldText(c.subjectText) != ""
    requires ContentMatches(pins[0], FieldText(c.subjectText), FieldText(c.senderText))
    ensures FindPinnedEmailMatch(pins, c) == Some(pins[0])
  {
    assert FirstContentMatch(pins, FieldText(c.subjectText), FieldText(c.senderText)) == Some(0);
  }
}
