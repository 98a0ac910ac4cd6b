# ticketr: client decisions, table lookups and payout-account status

This project models, in Dafny, the small pieces of logic that the ticketr
event-ticketing application keeps outside its waiting-list engine:

- **Join-queue widget** (`JoinQueue`): from the user's queue entry, the ticket
  they hold, the event's ticket counts, the event itself and the clock, the
  widget decides whether to show a spinner, nothing, an owner message, a
  past-event message, a sold-out message or the buy button.
- **Purchase panel** (`PurchasedTicket`): whether an offer has lapsed, the
  countdown text ("3 minutes 1 second", "Expired"), and the guard of the
  purchase handler.
- **`getUserTicketForEvent`** (`Tickets`): the first ticket of a user for an
  event, through the `by_user_event` index.
- **`updateUser`** (`Users`): an upsert of the users table keyed by the
  identity provider's user id, modelled as a class `UsersDb` holding the rows
  and the next document id, with a pure specification `Upsert` on table values.
- **`getStripeConnectAccountStatus`** (`StripeConnect`): the summary of a
  connected payment account, with the provider's retrieve call as a parameter.

Shared modules: `Wrappers` (`Option`, `Result`, and `Query`, the three states
of a subscribed query: pending, null, a document), `WaitingList` (the queue
entry as the client receives it), `DbIndex` (the first-match scan the store's
index queries perform) and `Text` (decimal numerals and words joined by spaces,
with their inverse readings).

Time is integer milliseconds. JavaScript truthiness is written out: a missing
or zero `offerExpiresAt` and a zero `eventDate` are falsy; only a document is a
truthy query result. Tables are sequences in insertion order, which is the
index order among rows with equal index keys.

The waiting-list engine is not part of this model: `joinWaitingList` and
`getQueuePosition` are only called from the widget (components/JoinQueue.tsx:18-19),
so the model takes the queue entry they return as an input. `handlePurchase`
checks only the stored status, not the deadline
(`PurchasedTicket.GuardIgnoresDeadline`).

## Model

| member | source | states |
|---|---|---|
| DbIndex.FirstIndex | convex/tickets.ts:10-15 | the position found holds a match and no earlier position does; None exactly when no element matches |
| DbIndex.First | convex/tickets.ts:10-15 | `.first()` returns an element that matches and sits at a position with no earlier match; None exactly when nothing matches |
| DbIndex.FirstSkipsNonMatch | convex/tickets.ts:12-15 | a leading non-matching row does not change the answer of the scan |
| Tickets.GetUserTicketForEvent | convex/tickets.ts:9-16 | None iff no ticket has both the userId and the eventId; a returned ticket has both, and is the first such in index order |
| Tickets.FirstMatchWins | convex/tickets.ts:15 | a matching ticket ahead of the others is the one returned, whatever follows |
| Tickets.OtherTicketsIrrelevant | convex/tickets.ts:12-14 | tickets of other users or other events never change the answer |
| Users.Upsert | convex/users.ts:12-33 | the table grows by at most one row; afterwards some row carries the returned id with the given userId, name and email; the store's id guarantees are kept |
| Users.UpsertExisting | convex/users.ts:12-24 | with a match, the first matching row gets the new name and email and keeps id, userId and stripeConnectId; its id is returned; the row count and id counter are unchanged; all other rows are unchanged |
| Users.UpsertFresh | convex/users.ts:27-33 | without a match, exactly one row is appended with the given userId, name and email and no stripeConnectId; its id is fresh and is returned; the id guarantees of the store still hold |
| Users.UpsertOthersUnchanged | convex/users.ts:17-33 | the table grows by at most one row, and rows of other users are never modified |
| Users.UpsertThenFind | convex/users.ts:10-34 | after the mutation, the lookup by userId finds a row with the returned id and the new name and email |
| Users.UpsertIdempotent | convex/users.ts:12-33 | a second call with the same arguments leaves the table as the first left it and returns the same id |
| Users.UsersDb.FindByUserId | convex/users.ts:12-15 | the index scan returns the first row with the userId, or None exactly when no row has it |
| Users.UsersDb.UpdateUser | convex/users.ts:10-34 | the new table and the returned id are those of the specification `Upsert` of the old table, and the store's id guarantees are kept |
| StripeConnect.DeriveStatus | actions/getStripeConnectAccountStatus.ts:25-41 | isActive iff details are submitted and currentlyDue is empty; isActive implies currentlyDue is empty; requiresInformation iff one of the three lists is non-empty; charges and payouts flags passed through |
| StripeConnect.RequirementsCopied | actions/getStripeConnectAccountStatus.ts:34-38 | the three lists are the account's own, each absent one (or an absent requirements object) becoming empty |
| StripeConnect.ActiveWhileRequiringInformation | actions/getStripeConnectAccountStatus.ts:26-33 | for every account, it is both active and requiring information exactly when details are submitted, nothing is currently due, and something is eventually or past due |
| StripeConnect.GetStripeConnectAccountStatus | actions/getStripeConnectAccountStatus.ts:17-46 | an empty id is exactly the "id required" error, whatever the provider would return, since it is raised before retrieval; a non-empty id whose retrieval fails is exactly the single generic error; success carries the status derived from the account retrieved by that id |
| JoinQueue.IsEventOwner | components/JoinQueue.tsx:30 | the user owns the event exactly when the event is loaded and its owner is the user |
| JoinQueue.IsPastEvent | components/JoinQueue.tsx:31 | past iff the event date is set (non-zero) and strictly before now; an event dated exactly now is not past |
| JoinQueue.IsSoldOut | components/JoinQueue.tsx:33-36 | sold out iff both counts are present and purchases reach the total; a missing count means not sold out |
| JoinQueue.IsLoading | components/JoinQueue.tsx:38-39 | loading iff the queue position or availability is pending, or the event is pending or absent |
| JoinQueue.IsQueueActive | components/JoinQueue.tsx:41-48 | no entry or an expired entry is inactive; another non-offered status is active; an offer is active iff its deadline is unset or still ahead |
| JoinQueue.Render | components/JoinQueue.tsx:78-97 | each of the six views is shown exactly under its condition in the fixed priority: loading, held ticket or live entry, owner, past event, sold out, then buy button |
| JoinQueue.BuyButtonAlwaysEnabled | components/JoinQueue.tsx:84-94 | whenever the buy button is shown its disabled flag is false |
| JoinQueue.PastEventStaysPast | components/JoinQueue.tsx:31 | a past event stays past as the clock advances |
| JoinQueue.InactiveEntryStaysInactive | components/JoinQueue.tsx:41-48 | an inactive queue entry stays inactive as the clock advances |
| JoinQueue.LiveEntryHidesEverything | components/JoinQueue.tsx:78-80 | with a live queue entry the widget shows only the spinner or nothing |
| JoinQueue.NoBuyButtonWhenBlocked | components/JoinQueue.tsx:84-95 | an owner, a past event or a sold-out event never gets the buy button |
| JoinQueue.OfferWindow | components/JoinQueue.tsx:41-48 | once loaded and without a ticket, an offer with deadline d hides the widget exactly while now is before d |
| Text.NatToString | components/PurchasedTicket.tsx:37-40 | a number is printed as a non-empty string of digits with no leading zero |
| Text.ParseNatToString | components/PurchasedTicket.tsx:37-40 | reading a printed number gives the number back |
| Text.ParseNatCanonical | components/PurchasedTicket.tsx:37-40 | the numeral reader accepts a text only if it is the printed form of its value, so it is one-to-one |
| Text.Words | components/PurchasedTicket.tsx:35-41 | helper of the countdown reader: splits a text at spaces into at least one word |
| Text.UnwordsWords | components/PurchasedTicket.tsx:35-41 | helper of the countdown reader: joining the words of any text gives the text back |
| Text.WordsUnwords | components/PurchasedTicket.tsx:35-41 | helper of the countdown reader: splitting space-free words joined by spaces gives the words back |
| PurchasedTicket.OfferExpiresAt | components/PurchasedTicket.tsx:21 | the entry's deadline when both entry and deadline are present, otherwise 0 |
| PurchasedTicket.IsExpired | components/PurchasedTicket.tsx:22 | expired iff the clock is strictly past the deadline; with no deadline any positive clock reads as expired |
| PurchasedTicket.Plural | components/PurchasedTicket.tsx:37-40 | the suffix is "s" iff the count exceeds 1, and empty for 0 and 1 |
| PurchasedTicket.SplitRemaining | components/PurchasedTicket.tsx:31-33 | seconds are below 60 and minutes times 60 plus seconds equals the whole seconds in the span |
| PurchasedTicket.FormatRemaining | components/PurchasedTicket.tsx:31-41 | the text reads as exactly diff div 60000 minutes and (diff div 1000) mod 60 seconds under the strict reader: the long form "M minute[s] S second[s]" exactly when minutes > 0, otherwise "S second[s]", each unit plural only for counts above 1 |
| PurchasedTicket.FormatRemainingUnique | components/PurchasedTicket.tsx:31-41 | a text reads as a span's minutes and seconds exactly when it is that span's countdown text |
| PurchasedTicket.WordsOfReading | components/PurchasedTicket.tsx:35-41 | a text the reader accepts as a time left consists of exactly the words the reading fixes |
| PurchasedTicket.ReadingDeterminesText | components/PurchasedTicket.tsx:35-41 | two texts with the same reading are the same text |
| PurchasedTicket.ReaderRejectsPluralSingular | components/PurchasedTicket.tsx:37-40 | "0 seconds" and "1 seconds" are not countdown texts: 0 and 1 take the singular |
| PurchasedTicket.ReaderRejectsSecondsOverMinute | components/PurchasedTicket.tsx:35-40 | sixty seconds or more are never written as seconds alone |
| PurchasedTicket.TimeRemaining | components/PurchasedTicket.tsx:25-42 | an expired offer reads exactly "Expired"; otherwise the span to the deadline is formatted |
| PurchasedTicket.PurchaseAllowed | components/PurchasedTicket.tsx:55-57 | the handler goes on iff a user is signed in, an entry exists and its status is offered |
| PurchasedTicket.MinutesTextAsWords | components/PurchasedTicket.tsx:37 | the minutes template is the four words number, minute[s], number, second[s] joined by spaces |
| PurchasedTicket.SecondsTextAsWords | components/PurchasedTicket.tsx:40 | the seconds-only template is the two words number, second[s] joined by spaces |
| PurchasedTicket.ReadMinutesWords | components/PurchasedTicket.tsx:35-38 | with minutes > 0 and seconds < 60, the long text reads back as those minutes and seconds |
| PurchasedTicket.ReadSecondsWords | components/PurchasedTicket.tsx:39-41 | with seconds < 60, the short text reads back as zero minutes and those seconds |
| PurchasedTicket.ReadTimeRemaining | components/PurchasedTicket.tsx:21-42 | one refresh reads as "Expired" when the clock is past the deadline (missing deadline as 0), otherwise as minutes and seconds below 60 that together make the whole seconds left |
| PurchasedTicket.AtDeadline | components/PurchasedTicket.tsx:22-40 | at the deadline itself the offer is not lapsed and the text is "0 second" |
| PurchasedTicket.GuardIgnoresDeadline | components/PurchasedTicket.tsx:22-57 | the purchase guard lets an offered entry through even when its deadline has passed and the countdown shows "Expired" |

## Left out

- The waiting-list engine (joining the list, queue position, offers, expiry sweeps, the ticket ledger): its code is not part of this model; the widget's queue entry is an input.
- React rendering and markup of the four messages and the button, the hooks (`useQuery`, `useMutation`, `useToast`, `useState`, `useEffect`) and the one-second `setInterval` refresh with its cleanup: UI plumbing; only the decisions and the text are modelled.
- The toast messages of `handleJoinQueue` (components/JoinQueue.tsx:50-76): a presentation side effect of an asynchronous call.
- The body of `handlePurchase` after its guard: the source has none; only the guard is modelled.
- The payment provider's `accounts.retrieve` call is a function parameter, and every way it can fail is one `None`; the logged error text is not modelled.
- The document store's query engine and ids: the tables are in-memory sequences in insertion order, and ids are naturals handed out by a counter.
- Concurrency and transactions of store mutations, and the separate clock readings of the purchase panel's render and its refresh: the model uses one `now` per decision.
- PurchasedTicket.SplitRemaining: floating-point division and `Math.floor` are modelled as integer division of a non-negative span. The model takes one clock reading per refresh, and under that reading a span is formatted only when it is not negative.
- The refresh with a stale expiry flag is not modelled: `isExpired` is computed at render (components/PurchasedTicket.tsx:22) and the interval callback keeps that value (45-47, 52), while `diff` takes a fresh clock reading (31). So the first tick after the deadline, before the next render, formats a negative span (800 ms late gives "-1 second"). Negative spans, `Math.floor` of negative values and printing of negative numbers are outside the model.
- Status values: the status constants file is not part of this model; the client distinguishes only "offered" and "expired", so every other status is one `Other` case, and the purchase guard's literal "offered" is taken to be the offered constant.
- Ticket and user rows hold only the fields these operations read or write.
- app/seller/page.tsx (sign-in redirect) and convex/storage.ts (storage URL pass-through): I/O wrappers with no logic.
