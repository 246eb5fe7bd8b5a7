/**
 * The content script's in-memory list of pinned emails (`pinnedEmails`, content.js:8)
 * and the list effect of the operations that change it. The newest pin is at index 0.
 */
module PinList {
  import opened Optional
  import opened JsString
  import opened Seqs

  /** At most this many emails may be pinned (content.js:4). */
  const MAX_PINS: nat := 5

  /** One stored record, captured when the email was pinned. */
  datatype PinnedEmail = PinnedEmail(id: string, subject: string, sender: string, timestamp: int)

  /** The first index of a record with id `id`, or -1 when there is none (content.js:354). */
  function IndexOf(pins: seq<PinnedEmail>, id: string): (r: int)
    ensures -1 <= r < |pins|
    ensures r >= 0 ==> pins[r].id == id && forall j :: 0 <= j < r ==> pins[j].id != id
    ensures r == -1 <==> forall j :: 0 <= j < |pins| ==> pins[j].id != id
  {
    if pins == [] then -1
    else if pins[0].id == id then 0
    else
      var k := IndexOf(pins[1..], id);
      if k < 0 then -1 else k + 1
  }

  /** Whether some record carries the id `id` (content.js:158-160). */
  function IsPinned(pins: seq<PinnedEmail>, id: string): (b: bool)
    ensures b <==> exists j :: 0 <= j < |pins| && pins[j].id == id
  {
    |pins| > 0 && (pins[0].id == id || IsPinned(pins[1..], id))
  }

  /** The membership test and the index search agree. */
  lemma {:induction false} IsPinnedIffIndexFound(pins: seq<PinnedEmail>, id: string)
    ensures IsPinned(pins, id) <==> IndexOf(pins, id) >= 0
  {
  }

  predicate DistinctIds(pins: seq<PinnedEmail>) {
    forall i, j :: 0 <= i < j < |pins| ==> pins[i].id != pins[j].id
  }

  /**
   * What the list satisfies when it starts empty (background.js:4) and is changed
   * only by the operations below: within capacity, ids distinct and non-empty.
   * The list read back from storage is not checked against this (content.js:57).
   */
  predicate WellFormed(pins: seq<PinnedEmail>) {
    && |pins| <= MAX_PINS
    && DistinctIds(pins)
    && forall k :: 0 <= k < |pins| ==> pins[k].id != ""
  }

  /** The text captured for a record: the element's trimmed text, or `fallback` if absent. */
  function Snapshot(elementText: Option<string>, fallback: string): (r: string)
    ensures elementText.None? ==> r == fallback
    ensures elementText.Some? ==> r == Trim(elementText.value)
  {
    match elementText
    case Some(t) => Trim(t)
    case None => fallback
  }

  datatype ToggleEffect = Unpinned | Pinned | CapacityReached

  datatype Toggled = Toggled(pins: seq<PinnedEmail>, effect: ToggleEffect)

  /**
   * The list effect of `togglePinEmail` for the resolved id `id` (content.js:354-380):
   * a pinned id is spliced out; an unpinned id is rejected at capacity or prepended
   * with the row's subject and sender text, or the defaults when those are absent.
   */
  function Toggle(pins: seq<PinnedEmail>, id: string, subjectText: Option<string>,
                  senderText: Option<string>, now: int): (r: Toggled)
    ensures IndexOf(pins, id) >= 0 ==>
      && r.effect == Unpinned
      && r.pins == RemoveAt(pins, IndexOf(pins, id))
    ensures !IsPinned(pins, id) && |pins| >= MAX_PINS ==>
      r.effect == CapacityReached && r.pins == pins
    ensures !IsPinned(pins, id) && |pins| < MAX_PINS ==>
      && r.effect == Pinned
      && |r.pins| == |pins| + 1
      && r.pins[0] == PinnedEmail(id, Snapshot(subjectText, "No subject"),
                                  Snapshot(senderText, "Unknown sender"), now)
      && r.pins[1..] == pins
  {
    IsPinnedIffIndexFound(pins, id);
    var index := IndexOf(pins, id);
    if index >= 0 then
      Toggled(RemoveAt(pins, index), Unpinned)
    else if |pins| >= MAX_PINS then
      Toggled(pins, CapacityReached)
    else
      var subject := Snapshot(subjectText, "No subject");
      var sender := Snapshot(senderText, "Unknown sender");
      Toggled([PinnedEmail(id, subject, sender, now)] + pins, Pinned)
  }

  /** `unpinEmailById` (content.js:390-393): splice out the first record with `id`, if any. */
  function UnpinById(pins: seq<PinnedEmail>, id: string): (r: seq<PinnedEmail>)
    ensures !IsPinned(pins, id) ==> r == pins
    ensures IsPinned(pins, id) ==> |r| == |pins| - 1
    ensures IndexOf(pins, id) >= 0 ==> r == RemoveAt(pins, IndexOf(pins, id))
  {
    IsPinnedIffIndexFound(pins, id);
    var index := IndexOf(pins, id);
    if index >= 0 then RemoveAt(pins, index) else pins
  }

  /** Unpinning an id other than the first record's works on the rest of the list. */
  lemma UnpinByIdCons(pins: seq<PinnedEmail>, id: string)
    requires pins != [] && pins[0].id != id
    ensures UnpinById(pins, id) == [pins[0]] + UnpinById(pins[1..], id)
  {
    var k := IndexOf(pins[1..], id);
    if k >= 0 {
      assert UnpinById(pins, id) == RemoveAt(pins, k + 1) by {
        assert IndexOf(pins, id) == k + 1;
      }
      assert UnpinById(pins[1..], id) == RemoveAt(pins[1..], k);
      RemoveAtCons(pins, k + 1);
    } else {
      assert UnpinById(pins, id) == pins by {
        assert IndexOf(pins, id) == -1;
        IsPinnedIffIndexFound(pins, id);
      }
      assert UnpinById(pins[1..], id) == pins[1..] by {
        IsPinnedIffIndexFound(pins[1..], id);
      }
      assert pins == [pins[0]] + pins[1..];
    }
  }

  /**
   * Removing the record at `i` from a list with distinct ids leaves exactly the other
   * records: none with that id remains, every other record is still present with all
   * its fields, and the ids stay distinct.
   */
  lemma RemoveAtDistinct(pins: seq<PinnedEmail>, i: nat)
    requires i < |pins| && DistinctIds(pins)
    ensures DistinctIds(RemoveAt(pins, i))
    ensures !IsPinned(RemoveAt(pins, i), pins[i].id)
    ensures forall k :: 0 <= k < |pins| && k != i ==> pins[k] in RemoveAt(pins, i)
  {
    var r := RemoveAt(pins, i);
    forall a, b | 0 <= a < b < |r|
      ensures r[a].id != r[b].id
    {
      var a' := if a < i then a else a + 1;
      var b' := if b < i then b else b + 1;
      assert r[a] == pins[a'] && r[b] == pins[b'];
    }
    forall k | 0 <= k < |pins| && k != i
      ensures pins[k] in r
    {
      if k < i { assert r[k] == pins[k]; } else { assert r[k - 1] == pins[k]; }
    }
  }

  /** On a list with distinct ids, unpinning leaves no record with `id` and keeps the ids distinct. */
  lemma UnpinByIdRemovesId(pins: seq<PinnedEmail>, id: string)
    requires DistinctIds(pins)
    ensures !IsPinned(UnpinById(pins, id), id)
    ensures DistinctIds(UnpinById(pins, id))
  {
    IsPinnedIffIndexFound(pins, id);
    if IndexOf(pins, id) >= 0 {
      RemoveAtDistinct(pins, IndexOf(pins, id));
    }
  }

  /** Every operation on the pinned list keeps it well formed. */
  lemma RemoveAtWellFormed(pins: seq<PinnedEmail>, i: nat)
    requires i < |pins| && WellFormed(pins)
    ensures WellFormed(RemoveAt(pins, i))
  {
    RemoveAtDistinct(pins, i);
    var r := RemoveAt(pins, i);
    forall k | 0 <= k < |r|
      ensures r[k].id != ""
    {
      if k < i { assert r[k] == pins[k]; } else { assert r[k] == pins[k + 1]; }
    }
  }

  /** Toggling a non-empty id keeps a well-formed list well formed. */
  lemma ToggleWellFormed(pins: seq<PinnedEmail>, id: string, subjectText: Option<string>,
                         senderText: Option<string>, now: int)
    requires WellFormed(pins) && id != ""
    ensures WellFormed(Toggle(pins, id, subjectText, senderText, now).pins)
  {
    IsPinnedIffIndexFound(pins, id);
    var r := Toggle(pins, id, subjectText, senderText, now);
    if IndexOf(pins, id) >= 0 {
      RemoveAtWellFormed(pins, IndexOf(pins, id));
    } else if |pins| < MAX_PINS {
      forall a, b | 0 <= a < b < |r.pins|
        ensures r.pins[a].id != r.pins[b].id
      {
        assert r.pins[b] == pins[b - 1];
        if a > 0 { assert r.pins[a] == pins[a - 1]; }
      }
    }
  }

  /** Unpinning keeps a well-formed list well formed. */
  lemma UnpinByIdWellFormed(pins: seq<PinnedEmail>, id: string)
    requires WellFormed(pins)
    ensures WellFormed(UnpinById(pins, id))
  {
    if IndexOf(pins, id) >= 0 {
      RemoveAtWellFormed(pins, IndexOf(pins, id));
    }
  }

  /** Pinning an id and then toggling it again restores the list exactly. */
  lemma ToggleTwiceRestores(pins: seq<PinnedEmail>, id: string, subjectText: Option<string>,
                            senderText: Option<string>, now: int, s2: Option<string>,
                            t2: Option<string>, later: int)
    requires !IsPinned(pins, id) && |pins| < MAX_PINS
    ensures var once := Toggle(pins, id, subjectText, senderText, now);
            var twice := Toggle(once.pins, id, s2, t2, later);
            twice.effect == Unpinned && twice.pins == pins
  {
    var once := Toggle(pins, id, subjectText, senderText, now);
    assert once.pins[0].id == id;
    assert IndexOf(once.pins, id) == 0;
    assert RemoveAt(once.pins, 0) == once.pins[1..];
  }

  /**
   * Pinning `a`, then `b`, then unpinning `a` leaves only `b`'s record, with the
   * subject, sender and timestamp captured when `b` was pinned.
   */
  lemma PinPinUnpinKeepsSecond(a: string, b: string, sa: Option<string>, ra: Option<string>,
                               ta: int, sb: Option<string>, rb: Option<string>, tb: int)
    requires a != b
    ensures var one := Toggle([], a, sa, ra, ta).pins;
            var two := Toggle(one, b, sb, rb, tb).pins;
            UnpinById(two, a) == [PinnedEmail(b, Snapshot(sb, "No subject"),
                                              Snapshot(rb, "Unknown sender"), tb)]
  {
    var one := Toggle([], a, sa, ra, ta).pins;
    var two := Toggle(one, b, sb, rb, tb).pins;
    assert IndexOf(one, b) == -1;
    assert IndexOf(two, a) == 1;
  }
}
