# Meeting scheduler, wallet ledger and document register — a Dafny model

This project models the record-keeping logic of three React pages of the
`nexus` web application. Each page keeps a little state, and its event
handlers replace that state with a new list built by `filter`, `map` or
spread:

- **Meeting scheduler** (`MeetingCalendar`). Holds a list of availability
  entries `(date, slot label)` that the user toggles or deletes. Holds a list
  of meeting requests, each `pending`, `accepted` or `declined`, answered
  with Accept and Decline. The calendar's event list is built from both:
  accepted meetings first, then one `Available` event per availability entry.
- **Wallet ledger** (`PaymentSystem`). Holds a balance, the typed amount and
  receiver, and a transaction history with the newest record first.
  Deposit, withdraw and transfer are guarded updates of that state. The
  history can be exported as CSV text.
- **Document register** (`DocumentChamber`). Holds a document list that
  grows by upload. The new document's id is the list length plus one, and its
  type is taken from the file name's extension. A signature dialog sets the
  selected document to `Signed`.

A fourth module, `Text`, models JavaScript's `split` with a string
separator and `Array.prototype.join`. Joining the pieces of a split gives the
text back for every text. Splitting a join gives the pieces back provided no
piece holds the separator's first character. The calendar uses it to cut a slot label at `" - "`, the document page
to take a file extension, and the CSV export to join its rows.

Each page is a class whose fields are the page's state (`seq` fields that the
methods reassign). Each handler is a method whose `ensures` gives the whole
new state in terms of the old one, through pure functions (`Toggled`,
`WithoutIndex`, `Respond`, `SignSelected`, ...). The lemmas beside those
functions state what the page promises.

Money is counted in integer cents (the opening balance 5420.75 is `542075`).
The timestamps of a slot are the `"<date>T<HH:MM>:00"` texts that the page
hands to `Date`.

The event list is the confirmed meetings followed by the availability
entries, unsorted. Accept and Decline are shown only for pending requests, so
`Accept`/`Decline` require the request to be pending.

## Model

| member | source | states |
|---|---|---|
| Text.Split | src/components/MeetingCalendar/MeetingCalendar.tsx:69 | `split` always yields at least one piece, and a single piece is the whole text |
| Text.Join | src/components/Paymentsystems/PaymentSystem.tsx:84 | `join` of no pieces is empty, and a join starts with its first piece |
| Text.JoinSplit | src/components/MeetingCalendar/MeetingCalendar.tsx:69 | joining the pieces of a split with the same separator gives the original text back |
| Text.SplitJoin | src/components/Paymentsystems/PaymentSystem.tsx:79-84 | splitting a join gives the pieces back when no piece holds the separator's first character |
| Text.SplitWithoutSeparator | src/components/MeetingCalendar/MeetingCalendar.tsx:69 | a text without the separator's first character splits into itself alone |
| Text.SplitAfterPiece | src/components/MeetingCalendar/MeetingCalendar.tsx:69 | a leading piece free of the separator's first character is split off whole |
| Text.LastPieceAfterLastSeparator | src/components/DocumentChamber/documentChamber.tsx:56 | the last piece of a split on one character holds no such character, ends the text, and is either the whole text or preceded by that character |
| Text.Last | src/components/DocumentChamber/documentChamber.tsx:56 | `pop()`'s value: the sequence is the elements before it followed by it |
| MeetingCalendar.RemoveEntry | src/components/MeetingCalendar/MeetingCalendar.tsx:57-59 | the filter removes every copy of the pair, keeps every other entry with its multiplicity, and keeps their order |
| MeetingCalendar.Toggled | src/components/MeetingCalendar/MeetingCalendar.tsx:51-63 | an absent pair is appended at the end; a present pair loses every copy while the others keep their count and order |
| MeetingCalendar.ToggleKeepsNoDuplicates | src/components/MeetingCalendar/MeetingCalendar.tsx:51-63 | a toggle never creates a duplicate entry |
| MeetingCalendar.ToggleTwice | src/components/MeetingCalendar/MeetingCalendar.tsx:51-63 | toggling a pair twice restores every pair's membership, and, if the pair was absent, restores the list itself |
| MeetingCalendar.RemoveLastOfAppend | src/components/MeetingCalendar/MeetingCalendar.tsx:57-61 | removing a pair just appended to a list that lacked it gives the list back |
| MeetingCalendar.WithoutIndex | src/components/MeetingCalendar/MeetingCalendar.tsx:146-148 | filtering out index `i` removes exactly the `i`-th entry and keeps the rest in order; an out-of-range `i` changes nothing |
| MeetingCalendar.DeleteKeepsNoDuplicates | src/components/MeetingCalendar/MeetingCalendar.tsx:146-148 | deleting an entry keeps the list free of duplicates |
| MeetingCalendar.Respond | src/components/MeetingCalendar/MeetingCalendar.tsx:170-193 | the map keeps the length and order and sets the new status only on requests carrying the id, every other field and request unchanged |
| MeetingCalendar.OfferedForResponse | src/components/MeetingCalendar/MeetingCalendar.tsx:160-167 | the Accept/Decline buttons of id `id` are shown exactly when some request carries `id` and is pending |
| MeetingCalendar.RespondKeepsDecided | src/components/MeetingCalendar/MeetingCalendar.tsx:167-212 | answering a pending request (ids unique) keeps ids unique, sets no request to pending, and leaves every accepted or declined request as it was |
| MeetingCalendar.RespondWithoutId | src/components/MeetingCalendar/MeetingCalendar.tsx:170-177 | answering an id no request carries changes nothing |
| MeetingCalendar.RespondAppend | src/components/MeetingCalendar/MeetingCalendar.tsx:170-193 | answering maps each part of a request list independently |
| MeetingCalendar.Confirmed | src/components/MeetingCalendar/MeetingCalendar.tsx:65 | the confirmed meetings are a subsequence of the requests, all accepted, each accepted request kept with its multiplicity |
| MeetingCalendar.ConfirmedAppend | src/components/MeetingCalendar/MeetingCalendar.tsx:65 | the confirmed meetings of two lists in a row are those of each list in a row |
| MeetingCalendar.ConfirmedOfAppend | src/components/MeetingCalendar/MeetingCalendar.tsx:65 | appending a request that is not accepted leaves the confirmed meetings unchanged |
| MeetingCalendar.ConfirmedLength | src/components/MeetingCalendar/MeetingCalendar.tsx:65 | there are as many confirmed meetings as accepted requests |
| MeetingCalendar.DeclineKeepsConfirmed | src/components/MeetingCalendar/MeetingCalendar.tsx:186-193 | declining an id that no accepted request carries leaves the confirmed meetings unchanged |
| MeetingCalendar.DeclineKeepsCalendar | src/components/MeetingCalendar/MeetingCalendar.tsx:184-193 | declining a pending request (ids unique) leaves the calendar's event list unchanged |
| MeetingCalendar.AcceptConfirms | src/components/MeetingCalendar/MeetingCalendar.tsx:170-177 | accepting the pending request at position `p` inserts it, accepted, between the confirmed meetings before and after `p` |
| MeetingCalendar.GetEventDate | src/components/MeetingCalendar/MeetingCalendar.tsx:68-73 | both timestamps start with the date followed by `T` |
| MeetingCalendar.SlotHalves | src/components/MeetingCalendar/MeetingCalendar.tsx:68-73 | for a label `a - b` whose halves hold no space, start is `date + "T" + a + ":00"` and end is `date + "T" + b + ":00"` |
| MeetingCalendar.LabelWithoutSeparator | src/components/MeetingCalendar/MeetingCalendar.tsx:69-71 | a label holding no space (so no `" - "`) gives a start holding the whole label and an end holding the text `undefined` |
| MeetingCalendar.CatalogueLabelHalves | src/components/MeetingCalendar/MeetingCalendar.tsx:22-28 | every catalogue label is five characters, `" - "`, and five characters, with no space in either half |
| MeetingCalendar.CatalogueClocksOrdered | src/components/MeetingCalendar/MeetingCalendar.tsx:22-28 | both halves of every catalogue label are `HH:MM` clock times and the first is strictly earlier |
| MeetingCalendar.CatalogueSlotsWellFormed | src/components/MeetingCalendar/MeetingCalendar.tsx:22-28 | every catalogue label is two `HH:MM` halves around `" - "`, the first strictly earlier, placed in start and end |
| MeetingCalendar.MeetingEvent | src/components/MeetingCalendar/MeetingCalendar.tsx:98-107 | a confirmed meeting's event carries its title, and both its times are on the meeting's date |
| MeetingCalendar.SlotEvent | src/components/MeetingCalendar/MeetingCalendar.tsx:109-118 | an availability entry's event is titled `Available`, and both its times are on the entry's date |
| MeetingCalendar.CalendarEvents | src/components/MeetingCalendar/MeetingCalendar.tsx:96-119 | one event per confirmed meeting, titled with its title and in order, then `Available` events only, one per availability entry |
| MeetingCalendar.CalendarShape | src/components/MeetingCalendar/MeetingCalendar.tsx:96-119 | the event list has one event per accepted request (in request order, titled with its title, with its slot times), then one `Available` event per availability entry in list order; its length is #accepted + #availability |
| MeetingCalendar.UndecidedAddsNoEvent | src/components/MeetingCalendar/MeetingCalendar.tsx:96-107 | a pending or declined request contributes no event |
| MeetingCalendar.SeedCalendar | src/components/MeetingCalendar/MeetingCalendar.tsx:32-49 | the seeded requests show exactly one event, Project Review from 15:00 to 16:00 on 2026-01-04 |
| MeetingCalendar.SeedConfirmed | src/components/MeetingCalendar/MeetingCalendar.tsx:32-49 | of the seeded requests only Project Review is accepted |
| MeetingCalendar.Scheduler.constructor | src/components/MeetingCalendar/MeetingCalendar.tsx:31-49 | the page starts with no availability and the two seeded requests, its invariant holding |
| MeetingCalendar.Scheduler.ToggleSlot | src/components/MeetingCalendar/MeetingCalendar.tsx:51-63 | the availability becomes `Toggled` of the old list, the requests do not change, and no duplicate entry appears |
| MeetingCalendar.Scheduler.DateClick | src/components/MeetingCalendar/MeetingCalendar.tsx:91-95 | a date click toggles the clicked date with `09:00 - 10:00` |
| MeetingCalendar.Scheduler.DeleteSlot | src/components/MeetingCalendar/MeetingCalendar.tsx:145-148 | the availability loses its `i`-th entry (one shorter when `i` is in range) and nothing else changes |
| MeetingCalendar.Scheduler.Accept | src/components/MeetingCalendar/MeetingCalendar.tsx:167-177 | offered only for a pending request; sets it accepted and leaves every decided request and the availability as they were |
| MeetingCalendar.Scheduler.Decline | src/components/MeetingCalendar/MeetingCalendar.tsx:184-193 | offered only for a pending request; sets it declined, leaves every decided request as it was, and leaves the event list unchanged |
| MeetingCalendar.Scheduler.Events | src/components/MeetingCalendar/MeetingCalendar.tsx:96-119 | the event list has #accepted + #availability entries |
| PaymentSystem.Rows | src/components/Paymentsystems/PaymentSystem.tsx:79-83 | one row per transaction, in history order |
| PaymentSystem.Row | src/components/Paymentsystems/PaymentSystem.tsx:82 | a row starts with the type name and a comma and ends with a comma and the status name |
| PaymentSystem.Csv | src/components/Paymentsystems/PaymentSystem.tsx:77-84 | the exported text starts with the header line and its line break, and an empty history exports the header alone |
| PaymentSystem.RowFields | src/components/Paymentsystems/PaymentSystem.tsx:80-83 | a row read back by splitting on commas is type, amount, sender, receiver and status, in that order |
| PaymentSystem.RowIsJoinOfFields | src/components/Paymentsystems/PaymentSystem.tsx:82 | the row template is the five fields joined by `,` |
| PaymentSystem.RowHasNoLineBreak | src/components/Paymentsystems/PaymentSystem.tsx:82 | a row whose free-text cells hold no line break holds none |
| PaymentSystem.CsvLines | src/components/Paymentsystems/PaymentSystem.tsx:77-84 | when no sender, receiver or amount text holds a line break, the CSV text read back by lines is the header line, then one row per transaction in history order, with no trailing newline; an empty history leaves one empty line after the header |
| PaymentSystem.Wallet.constructor | src/components/Paymentsystems/PaymentSystem.tsx:13-29 | the page starts at 5420.75 with amount 0, no receiver and the one seeded transfer |
| PaymentSystem.Wallet.SetAmount | src/components/Paymentsystems/PaymentSystem.tsx:141 | the amount field takes the typed value; nothing else changes |
| PaymentSystem.Wallet.SetReceiver | src/components/Paymentsystems/PaymentSystem.tsx:148 | the receiver field takes the chosen value; nothing else changes |
| PaymentSystem.Wallet.AddTransaction | src/components/Paymentsystems/PaymentSystem.tsx:31-32 | the record is prepended: the history grows by one and the old entries follow unchanged |
| PaymentSystem.Wallet.HandleDeposit | src/components/Paymentsystems/PaymentSystem.tsx:34-46 | a non-positive amount changes nothing; otherwise the balance rises by the amount, a `Deposit` `Bank`→`My Wallet` `Completed` record is prepended, and the amount resets to 0 |
| PaymentSystem.Wallet.HandleWithdraw | src/components/Paymentsystems/PaymentSystem.tsx:48-60 | a non-positive amount or one above the balance changes nothing; otherwise the balance falls by the amount, a `Withdraw` record is prepended, and the amount resets; the balance stays non-negative |
| PaymentSystem.Wallet.HandleTransfer | src/components/Paymentsystems/PaymentSystem.tsx:62-75 | also rejected with no receiver; otherwise the balance falls by the amount, an `Investor John`→receiver record is prepended, and amount and receiver reset; the balance stays non-negative |
| PaymentSystem.Wallet.ExportText | src/components/Paymentsystems/PaymentSystem.tsx:77-84 | the exported text starts with the header `Type,Amount,Sender,Receiver,Status` and a line break |
| PaymentSystem.RepeatIsRejected | src/components/Paymentsystems/PaymentSystem.tsx:34-75 | after a successful deposit, withdrawal or transfer (which clears the amount and adds one record), an immediate deposit, withdrawal and transfer are all rejected |
| DocumentChamber.ExtensionIsTextAfterLastDot | src/components/DocumentChamber/documentChamber.tsx:56 | the type is the text after the last `.`, the whole name when there is no `.`, and `Document` when that text is empty |
| DocumentChamber.Extension | src/components/DocumentChamber/documentChamber.tsx:56 | the type is never empty, holds no `.`, and is either `Document` or a tail of the file name |
| DocumentChamber.SignSelected | src/components/DocumentChamber/documentChamber.tsx:66-71 | the map keeps the length and order and sets `Signed` only on documents whose id is the selected id |
| DocumentChamber.SigningIsMonotoneAndIdempotent | src/components/DocumentChamber/documentChamber.tsx:66-71 | signing keeps every id, never moves a document out of `Signed`, and signing again changes nothing |
| DocumentChamber.SignWithoutSelection | src/components/DocumentChamber/documentChamber.tsx:69 | with no selection, signing changes nothing |
| DocumentChamber.Chamber.constructor | src/components/DocumentChamber/documentChamber.tsx:18-46 | the page starts with the three seeded documents (ids 1, 2, 3), no selection and the dialog closed |
| DocumentChamber.Chamber.Upload | src/components/DocumentChamber/documentChamber.tsx:49-64 | with no file, nothing changes; otherwise one `Draft` document by `You` with id length+1 and the name's extension is appended; ids stay equal to positions + 1 and so stay unique |
| DocumentChamber.Chamber.View | src/components/DocumentChamber/documentChamber.tsx:145 | the viewed document becomes the selection |
| DocumentChamber.Chamber.OpenSignature | src/components/DocumentChamber/documentChamber.tsx:151-160 | offered only for a document that is not signed; selects it and opens the dialog |
| DocumentChamber.Chamber.CancelSignature | src/components/DocumentChamber/documentChamber.tsx:197-199 | closes the dialog and changes nothing else |
| DocumentChamber.Chamber.SignDocument | src/components/DocumentChamber/documentChamber.tsx:66-74 | documents with the selected id become `Signed` and nothing else changes, a signed document stays signed, and the dialog flag becomes false |

## Left out

- Rendering, class names, colours and the calendar widget's options. An event
  is its title, start and end only.
- JavaScript `Date` parsing of the timestamps in local time. The model keeps
  the `"<date>T<HH:MM>:00"` texts, and "earlier" is stated on the `HH:MM`
  halves of the catalogue labels.
- Floating-point money. Amounts and balances are integer cents. The amount
  text `${t.amount}` of a CSV row is the parameter `showAmount`, and the
  file-size text `toFixed(1)` of an upload is the parameter `formatSize`.
  `wallet.toFixed(2)` only feeds the balance card, which is left out with the
  rest of the rendering.
- `Date.now()` record ids and `URL.createObjectURL` are parameters (`now`,
  `objectUrl`). The `Blob`/anchor download of the CSV text and the signature
  canvas's `clear()` are left out as browser side effects.
- React batching and stale closures. Each handler is one atomic step on the
  current state. `toggleSlot` reads the rendered list but writes through
  `prev`, and `handleUpload` writes from `documents`; both are taken as acting
  on the current state.
- The wallet page's mode tabs (`setMode`) only choose which button is shown.
  All three handlers are modelled.
- The security settings page, the video panel, routing and `CalendarPage` hold
  no record-keeping logic and are not part of this model.
- HandleDeposit, HandleWithdraw, HandleTransfer: each returns a success flag
  that the page's handlers do not have. The flag only names which branch was
  taken.
