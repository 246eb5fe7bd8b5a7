# gmailPinner, modelled in Dafny

gmailPinner is a Chrome extension that lets a Gmail user pin up to five emails to the
top of the inbox list. A content script runs in the Gmail page. It keeps the pinned
list (`pinnedEmails`), gives every list row an id, adds a pin button to each row, and
moves pinned rows to the top. A popup shows the pinned emails and can unpin them.

This project models the logic of both scripts as pure functions over immutable
values:

- `PinList` (pin_list.dfy): the pinned list and the list effect of pinning, unpinning
  and capacity rejection.
- `RowIdentity` (row_identity.dfy): how a row gets its id. The row's own tag wins,
  then Gmail's native ids, then a synthesized `email-<hash>-<index>-<time>` id. It also
  holds the content tie-break that matches a re-rendered row to a stored record.
- `StringHash` (string_hash.dfy): the 32-bit string hash behind synthesized ids.
- `Reconciler` (reconciler.dfy): the per-row pass of `processVisibleEmails`, button
  and highlight synchronisation, a click on a pin button, and an invariant over any
  sequence of clicks and unpin messages.
- `Reorder` (reorder.dfy): `performReorder` as a loop of `insertBefore` moves over the
  container's children, and `moveUnpinnedEmailToOriginalPosition`.
- `Popup` (popup.dfy): `escapeHtml`, the popup's unpin filter and its display order.
- `JsString`, `Seqs` and `Optional`: the JavaScript string facilities the scripts use,
  generic sequence lemmas, and an option type.

A row is a record: its native ids, its subject, sender and date text, its text, its
position, its `data-pin-email-id` tag and its pin button. The container is a sequence
of distinct nodes. `Date.now()` is a parameter.

## Model

| member | source | states |
|---|---|---|
| PinList.IndexOf | content.js:354 | the first index holding the id, or -1 exactly when no record has it |
| PinList.IsPinned | content.js:158-160 | an id is pinned exactly when some record carries it |
| PinList.IsPinnedIffIndexFound | content.js:354-356 | the membership test and the index search agree, so `togglePinEmail` unpins exactly the pinned ids |
| PinList.Toggle | content.js:354-380 | a present id is spliced out at its index; an absent id at capacity leaves the list unchanged; otherwise one record is prepended at index 0 with the trimmed subject and sender, or 'No subject' and 'Unknown sender', and the rest is unchanged |
| PinList.UnpinById | content.js:390-393 | an absent id changes nothing; a present id removes one record, the one at its first index |
| PinList.RemoveAtDistinct | content.js:358 | with distinct ids, splicing out one record leaves no record with its id, and every other record is kept with all its fields, timestamp included |
| PinList.UnpinByIdRemovesId | content.js:390-393 | with distinct ids, after `unpinEmailById` no record carries the id and ids stay distinct |
| PinList.ToggleWellFormed | content.js:354-380 | toggling a non-empty id keeps the list within capacity with distinct non-empty ids |
| PinList.UnpinByIdWellFormed | content.js:390-393 | unpinning keeps the list within capacity with distinct non-empty ids |
| PinList.ToggleTwiceRestores | content.js:354-380 | pinning an id and toggling it again restores the list exactly |
| PinList.PinPinUnpinKeepsSecond | content.js:354-380 | pinning a, then b, then unpinning a leaves only b's record, with the fields captured when b was pinned |
| Reconciler.RunWellFormed | content.js:348-393 | from a list within capacity with distinct non-empty ids, which includes the empty list set on install, any sequence of clicks and unpin messages keeps those properties |
| JsString.TrimIsInfix | content.js:111 | the trimmed text is the part of the input after its leading whitespace, followed only by whitespace; with `Trim` never starting or ending with whitespace, it is exactly the input with leading and trailing whitespace removed |
| JsString.TrimEmptyIffWhitespace | content.js:144 | trimming leaves '' exactly when the text is all whitespace |
| JsString.TrimIdempotent | content.js:153 | trimming stored text that was trimmed when stored changes nothing |
| JsString.Prefix | content.js:120 | `substring(0, n)` is the first n characters, or the whole text if it is shorter |
| JsString.NatToStringRoundTrip | content.js:128 | the decimal text of a natural number reads back as that number |
| JsString.IntToStringRoundTrip | content.js:128 | an integer printed into an id and followed by a non-digit reads back as that integer and that rest |
| StringHash.ToInt32 | content.js:122-123 | the signed 32-bit value congruent to the input modulo 2^32 |
| StringHash.Hash | content.js:121-124 | the fold's accumulator is always a signed 32-bit integer |
| StringHash.HashStepWraps | content.js:122-123 | one step of the fold is 31·a + charCode wrapped to a signed 32-bit integer |
| StringHash.HashIsWrappedPolynomial | content.js:121-124 | the fold equals the unbounded polynomial hash reduced once at the end, so the per-step wrapping loses nothing |
| StringHash.HashSnoc | content.js:121-124 | appending a character takes the previous hash one wrapped step further |
| RowIdentity.NativeId | content.js:100-102 | the first truthy of `data-message-id`, `data-legacy-message-id` and `data-thread-id`, and none when all three are falsy |
| RowIdentity.SynthesizedId | content.js:128 | a synthesized id starts with `email-` |
| RowIdentity.SynthesizedIdDecodes | content.js:128 | the hash, row index and time can be read back out of a synthesized id |
| RowIdentity.SynthesizedIdInjective | content.js:128 | two synthesized ids are equal only when hash, row index and time all agree |
| RowIdentity.GenerateUniqueEmailId | content.js:98-132 | the id is the native id if one is present, otherwise the synthesized id over the hash of the row text, its sibling index and the time; it is never empty and is written to the row's tag, and nothing else changes |
| RowIdentity.GetEmailId | content.js:134-138 | a truthy tag is returned unchanged and the row is left as is; otherwise a generated id is returned and written to the tag |
| RowIdentity.GetEmailIdStable | content.js:134-138 | asking again, at any later time, returns the same id and changes nothing |
| RowIdentity.FirstContentMatch | content.js:151-155 | the index of the first record whose non-empty subject and sender, trimmed, equal the row's, and none exactly when no record matches |
| RowIdentity.FindPinnedEmailMatch | content.js:140-156 | nothing when the row's trimmed subject and sender are both empty; otherwise the first matching record, and nothing only when no record matches |
| Reconciler.SyncEmailState | content.js:221-242 | the highlight, the button's `pinned` class and its title all follow whether the id is pinned; tag, content and button id are untouched |
| Reconciler.AddPinButton | content.js:244-286 | a row that already has a button, or has no cell for one, is unchanged; otherwise it gains a button carrying the id, already synchronised |
| Reconciler.ResolveRowId | content.js:170-193 | the row keeps `getEmailId`'s id when that id is pinned or no email is pinned; any other id it ends up with is pinned, and comes from its existing button or, for a row without a button, from the content match |
| Reconciler.ResolveRowIdNonEmpty | content.js:170-193 | with non-empty stored ids, the resolved id is never empty |
| Reconciler.ProcessRow | content.js:168-209 | the row ends up tagged with its resolved id; it has a button carrying that id if it had one or has a cell for one; its highlight and button class show whether that id is pinned |
| Reconciler.ProcessRowIdempotent | content.js:168-209 | processing a row a second time, with the list unchanged, leaves it exactly as the first pass did |
| Reconciler.ProcessVisibleEmails | content.js:162-219 | a call while a pass is running changes nothing; otherwise each row is processed on its own, in order: it is tagged with its resolved id, gains or updates its button as `ProcessRow` says, and is highlighted exactly when that id is pinned |
| Reconciler.ProcessVisibleEmailsIdempotent | content.js:162-219 | a second pass over the rows of a first, with the list unchanged, changes nothing |
| Reconciler.ActualEmailId | content.js:352 | a truthy row tag takes precedence over the id the button gave |
| Reconciler.TogglePinEmail | content.js:348-385 | a click without an id does nothing; otherwise the list changes as `Toggle` says, a refused pin leaves the row untouched, and a new pin highlights the row and is first in the list |
| Reconciler.TogglePinEmailUnpins | content.js:354-360 | with distinct ids, a click on a pinned row removes its id from the list and clears its highlight |
| Reconciler.PinnedRowMatchedByContent | content.js:369-380 | after a row whose subject and sender are both present and non-empty once trimmed is pinned, a re-rendering of it with the same subject and sender text, without tag or button, is matched back to the new record |
| Reconciler.PinnedRowWithoutTextNotMatched | content.js:369-372 | after a row whose subject or sender is missing or blank once trimmed is pinned, its re-rendering is matched exactly as before the pin, so the new record is never found by content: the stored placeholder or '' never equals the '' the row reads back |
| RowIdentity.UnmatchedHeadInvisible | content.js:151-155 | a record in front of the list that does not match the row changes nothing about which record is found |
| Reorder.PinIndex | content.js:451-457 | a pinned node's sort key is the index of the first record carrying its tag; a node without a tag, or whose tag is not pinned, gets -1 |
| Reorder.SortedPinnedRows | content.js:433-457 | the pinned children, ordered by pin index, a permutation of the pinned children |
| Seqs.SortByStable | content.js:451-457 | the sort is stable: rows with the same key, such as two rows carrying the same tag, keep their order from the children |
| Reorder.NoPinnedRows | content.js:443-448 | the sort yields no rows exactly when no child is pinned |
| Reorder.FindInsertionPoint | content.js:464-485 | the first node of the snapshot, other than the row, that is not pinned or is pinned later; none only when every other node is pinned no later |
| Reorder.MoveRow | content.js:461-491 | a move only permutes the children |
| Reorder.PlacePinnedRow | content.js:461-491 | the loop body, scan and move, computes the move of the row |
| Reorder.PlaceAll | content.js:460-492 | after the loop every pinned row stands before every child that is not pinned, and the children that are not pinned keep their relative order |
| Reorder.PerformReorder | content.js:428-496 | one pass permutes the children; children that are not pinned, email rows or not, keep their relative order; every pinned row ends before every child that is not pinned; with no pinned row nothing changes |
| Reorder.AscendingPrefixUnchanged | content.js:451-491 | when the pinned rows already form a prefix in strictly ascending pin index, a pass leaves the order unchanged |
| Reorder.ExampleFirstPass | content.js:460-491 | on a, b, c, d, e with b pinned before d, one pass gives d, b, a, c, e |
| Reorder.ExampleSecondPass | content.js:460-491 | a second pass over d, b, a, c, e gives b, d, a, c, e |
| Reorder.ReorderPassNotIdempotent | content.js:460-491 | one pass can leave pinned rows out of pin order, so a second pass with nothing changed still moves rows |
| Reorder.ReorderPassFixedPartition | content.js:451-491 | the corrected pass is a stable partition: the pinned rows in pin order, then every other child in its original order |
| Reorder.ReorderPassFixedIdempotent | content.js:451-491 | a second corrected pass changes nothing |
| Reorder.ExampleFixedPass | content.js:451-491 | the corrected pass gives b, d, a, c, e in one go |
| Reorder.LastOtherPinned | content.js:321-336 | none exactly when no other child is pinned; otherwise another pinned child with the greatest pin index |
| Reorder.PlaceAfterAdjacent | content.js:336-341 | the row ends directly after the reference row, and every other child keeps its relative order |
| Reorder.MoveUnpinnedToOriginalPosition | content.js:316-346 | the move only permutes the children |
| Reorder.MoveUnpinnedPlacement | content.js:316-346 | nothing changes unless the row is a child and another pinned row exists; then the row ends directly after the other pinned row with the greatest pin index, and every other child keeps its relative order |
| Popup.ReplaceAll | popup.js:74 | text without the pattern character is unchanged |
| Popup.ReplaceChainConcat | popup.js:74-78 | the chain of five replacements distributes over concatenation |
| Popup.EscapeHtml | popup.js:72-79 | a falsy input gives '' |
| Popup.EscapeHtmlIsPerCharacter | popup.js:74-78 | the chain equals the independent per-character map to `&amp;`, `&lt;`, `&gt;`, `&quot;`, `&#039;`, so no entity is escaped twice |
| Popup.EscapeHtmlNoSpecial | popup.js:72-79 | the output contains no `<`, `>`, `"` or `'` |
| Popup.EscapeHtmlLength | popup.js:74-78 | output length is input length + 4·#& + 3·#< + 3·#> + 5·#" + 5·#' |
| Popup.EscapeHtmlRoundTrip | popup.js:74-78 | decoding the five entities gives the input back, so escaping loses nothing |
| Popup.UnpinEmail | popup.js:60 | no record with the id remains, every other record stays, and nothing new appears |
| Popup.UnpinEmailKeepsOrder | popup.js:60 | the remaining records keep their relative order |
| Popup.UnpinEmailMatchesSplice | popup.js:60 | with distinct ids, the popup's filter and the content script's splice give the same list |
| Popup.UnpinEmailWellFormed | popup.js:60 | the filter keeps the list within capacity with distinct non-empty ids |
| Popup.LoadPinnedEmailsPopup | popup.js:28-45 | an empty list shows the empty state; otherwise one entry per record, in reverse stored order |
| Popup.NewPinShownLast | popup.js:33 | a newly pinned email is shown last, after every earlier pin in their old display order |

## Findings

| source | as written | input that shows it | evidently intended | confidence | as-written member | corrected member |
|---|---|---|---|---|---|---|
| content.js:460-491 | each pinned row's scan for a reference node reads the snapshot `allRows` from before any move, so a row placed earlier in the loop is not seen where it now stands | children a, b, c, d, e with b pinned before d: one pass gives d, b, a, c, e, and a second pass gives b, d, a, c, e | one pass leaves the pinned rows at the top in pin order and every other child in its order | medium, not executed | Reorder.ReorderPassNotIdempotent | Reorder.ReorderPassFixedPartition |

`Reorder.PerformReorder` models the code as written. The corrected pass
`Reorder.ReorderPassFixed` moves each sorted pinned row to the front, last row first.
`Reorder.ReorderPassFixedIdempotent` shows that a second corrected pass changes nothing.

## Left out

- DOM querying is not modelled. This covers the row selectors and the visibility filter of `findVisibleEmailRows`, `findEmailContainer`, and the `querySelector` fallbacks. The model receives rows, their element texts and the container's children as values.
- `chrome.storage`, `runtime.sendMessage`, `tabs.query` and message dispatch are I/O. The stored list is a plain value, and the list read from storage is not checked. `Reconciler.RunWellFormed` therefore assumes a well-formed starting list.
- Timers, the `MutationObserver`, URL and visibility polling, the reorder debounce and the 500 ms `isClicking` guard are event plumbing. They are not modelled; the `isProcessing` flag is a parameter.
- `unpinEmailById` is modelled for its list effect only. Finding the row, the delayed move and the reorder that follow are separate members, and they are not composed.
- `togglePinEmail`'s save, popup message, delayed `moveUnpinnedEmailToOriginalPosition` and `reorderPinnedEmails` are left out. The moves exist as their own members.
- `alert`, CSS injection, `innerHTML` markup, `formatTime` (locale dependent) and `navigateToEmailById` are presentation. The popup keeps the raw timestamp in place of `formatTime`.
- Exceptions caught by the `try`/`catch` blocks are not modelled; every step here is total.
- Reorder.MoveRow: the checks that a row and its reference node are still children of the container always hold in the model, because the children are a fixed set of distinct nodes.
- Reorder.Node: only element children are modelled. `nextSibling` and `firstChild` are read as the next and the first element child, and text nodes between rows are not represented.
- Reconciler.ResolveRowId: the second test for a button, in the content-match branch, is dropped. The branch is only reached for a row without a button.
- JsString.IntToString: integers print in plain decimal. JavaScript switches to exponent notation from 10^21, which no hash, row index or `Date.now()` value reaches.
- JsString: each `char` is one UTF-16 code unit. Astral characters are not split into surrogate pairs, so `charCodeAt` and `substring(0, 100)` count code units only as far as this holds.
- Falsy attribute values are modelled as a missing value or ''. Non-string stored fields, such as a missing `subject` in a stored record, are not represented.
