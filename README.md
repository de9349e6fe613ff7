# Badminton sign-up roster, modelled in Dafny

The system is a LINE chat bot for signing up to badminton sessions. An organiser
creates a session with `/new <date> <time range> <location> [max=N]`. Players then
send `+N` or `-N`, optionally followed by `@<date>`, to add or cancel N places.

Each session keeps two ordered lists of sign-ups:
- the attendees (the main list, capped at `max` places);
- the waitlist.

A sign-up carries a party size `count`, and a count of 0 is weighed as 1. When places
are cancelled, the bot fills the freed places from the head of the waitlist. If the
head party does not fit whole, it is split.

The project has these modules:

- `Text`: the JavaScript string primitives the bot relies on:
  - the `\s` and `trim` whitespace set, and ASCII `\d`;
  - `String(n)` and `parseInt` on digit strings;
  - `split(/\s+/).filter(Boolean)` and `join(' ')`;
  - code-unit order on strings (`<`).
- `Dates`:
  - `pad2`, `toYYYYMMDDFromMD` and `mdDisp`;
  - the `yyyy-mm-dd` and `m/d` shapes.
- `TimeRange`: the two time-range patterns the bot uses, as a scanner that returns what
  it matched. It also gives the end-of-session minute used by the expiry check.
- `Commands`: `parsePlusMinus` and `parseNewPayload`.
- `Roster`: the sign-up entries, `totalCount`, `findIndexById`, and specification
  functions for adding places, deducting places and promoting from the waitlist. It
  also holds the lemmas about these functions.
- `Events`: a session as a class whose two lists are updated in place.
  - `AddPeople` and `RemovePeople` follow the bot's `addPeople` and `removePeople`
    statement by statement, including the promotion loop.
  - These methods are proved equal to the `Roster` functions.
  - The module also models the expiry test, the sorted list of open sessions and the
    choice of the session a `+N`/`-N` command acts on.

The clock is a parameter everywhere:
- "today" is a `yyyy-mm-dd` string;
- "now" is minutes after midnight;
- the current year is a number.

## Model

| member | source | states |
|---|---|---|
| Roster.FindIndexById | index.js:120 | the index of the first entry with the user id, or -1 exactly when no entry has it |
| Roster.Single | index.js:119 | one entry takes its count in seats, and one seat when its count is 0 |
| Roster.Concat | index.js:119 | the total seat count of a concatenation is the sum of the totals of the parts (zero counts weigh one) |
| Roster.PositiveSums | index.js:119 | on a list of positive counts the total is at least what any one user holds, and that is non-negative |
| Roster.HeldByFound | index.js:119-120 | on a list with one entry per user, what a user holds is the weight of the entry found for them, or 0 |
| Roster.AddListed | index.js:131-135 | an attendee already listed gets `n` more on their own entry, everything else unchanged, reported as main |
| Roster.AddUnlisted | index.js:136-144 | a new attendee goes to the main list exactly when the current total plus `n` fits `max`, appended at the end; otherwise the main list is unchanged and the waitlist entry grows or is appended |
| Roster.AddNewcomerFits | index.js:136-139 | a newcomer placed on the main list leaves its total within `max` |
| Roster.AddConserves | index.js:129-145 | adding `n >= 1` keeps the lists well formed and raises both the combined seat count and the user's holding by exactly `n` |
| Roster.AddKeepsOthers | index.js:129-145 | adding for one user never changes what any other user holds |
| Roster.AddListedIgnoresCapacity | index.js:132-135 | a listed attendee's merge is not capacity-checked: a full session of 8 ends with 10 on the main list |
| Roster.TakeFromFacts | index.js:150-164 | deducting from one list removes `min(amount, held)`, leaves the rest owing, and leaves other users' entries untouched; a partly used entry is lowered at its own index with its name, and a used-up one is cut out with the rest closing up in order |
| Roster.DeductFacts | index.js:148-164 | deduction takes `min(abs(n), holding)` places, main list first, and touches the waitlist only if the main entry did not cover it; on each list the user's entry is lowered in place (keeping its queue position) or cut out |
| Roster.DeductKeepsOthers | index.js:148-164 | deduction for one user never changes what any other user holds |
| Roster.LeaveHeadFacts | index.js:174-176 | taking `c` seats from the head party keeps the waitlist positive and one entry per user, only drains it from the head, lowers its total by exactly `c`, and lowers only the head user's seats, by `c` |
| Roster.PromoteStep | index.js:169-176 | each round shortens the waitlist or fills the main list exactly to `max`, so the loop ends |
| Roster.PromoteLengths | index.js:166-177 | promotion never lengthens the waitlist, never drops a main entry, and changes nothing when the main list is full or nobody waits |
| Roster.PromoteStepTotals | index.js:169-176 | one promotion step moves exactly `canTake` places from the waitlist head to the main list |
| Roster.PromoteKeeps | index.js:166-177 | promotion keeps the lists well formed and preserves the combined count and every user's holding |
| Roster.PromoteFills | index.js:166-177 | after promotion the main list is full or the waitlist is empty, and the main total equals `min(max, total + waiting)` when it started below `max` |
| Roster.PromoteOrder | index.js:166-177 | promotion only drains the waitlist from its head and only grows main entries or appends new ones |
| Roster.RemoveFacts | index.js:147-177 | removal keeps the lists well formed, lowers the combined count and the user's holding by `min(abs(n), holding)`, leaves other users alone, and ends full or with an empty waitlist |
| Roster.PartialPromotionSplitsParty | index.js:169-176 | a waitlisted party of 3 with one free place is split: one promoted, two left waiting |
| Events.Event.constructor | index.js:316-322 | a new session carries the parsed payload's fields and two empty lists |
| Events.Event.AddPeople | index.js:129-145 | the in-place update yields exactly the `Add` lists and placement, and for `n >= 1` keeps the session valid with `n` more places |
| Events.Event.RemovePeople | index.js:147-178 | the in-place deduction and promotion loop yield exactly the `Remove` lists, and a valid session stays valid and ends full or with no waitlist |
| Events.Event.DeductSeats | index.js:148-164 | the in-place deduction yields exactly the `Deduct` lists |
| Events.Event.PromoteHead | index.js:169-176 | one loop pass takes `min(head count, max - cur)` and yields exactly one promotion step |
| Events.ExpiredByDate | index.js:74-77 | a session dated before today is expired, and one dated after today is not |
| Events.ExpiredSameDay | index.js:78-87 | a session dated today is expired exactly when now is at or past its end minute |
| Events.ExpiredUnparsable | index.js:79-85 | a same-day session whose time range does not match ends at 24:00, so it is not expired at any minute of the day |
| Events.ExpiredAtEnd | index.js:79-87 | for a matching range, the same-day expiry reads the end hour and minute of the second clock |
| Events.OpenEvents | index.js:122-126 | the open sessions are sorted by date then time range, are exactly the unexpired sessions as a multiset, and sessions with the same date and time range keep their stored order |
| Events.SortKeepsOrder | index.js:125 | the sort is stable: for every key, the sessions with that key appear in the same order before and after sorting |
| Events.UnexpiredConcat | index.js:124 | the expiry filter keeps the stored order: filtering a concatenation is the concatenation of the filtered parts |
| Events.UnexpiredWithKey | index.js:123-124 | taking the sessions of one key and dropping the expired ones can be done in either order |
| Events.FindByDate | index.js:355 | the first open session with the requested date, or -1 exactly when none has it |
| Events.SelectTarget | index.js:349-365 | no open session, an unknown date, and a question to pick a date (two or more sessions, no date given) are each characterised exactly; a dated choice is the first open session in sort order on that date, and an undated one the only open session |
| Events.SelectedIsOpen | index.js:344-365 | a chosen session is one of the sessions and is open |
| Dates.Pad2 | index.js:53 | a numeral for `n`, two digits when `n < 100`, and `String(n)` when `n >= 10` |
| Dates.Pad2OfDigits | index.js:53 | padding the value of a two-digit string gives that string back |
| Dates.ToYMDFromMD | index.js:62-67 | for a four-digit year, a `yyyy-mm-dd` date with that year and the short date's month and day |
| Dates.MdDisp | index.js:68-71 | an `m/d` date with the stored date's month and day values |
| Dates.MdDispOfToYMD | index.js:62-71 | displaying a completed short date gives its month and day without leading zeros, and gives it back when it had none |
| Dates.ToYMDOfMdDisp | index.js:62-71 | completing the display of a stored date with its own year gives the stored date back |
| Text.Trim | index.js:257 | `trim` removes only white space, and what it leaves neither starts nor ends with white space |
| Text.Words | index.js:226 | splitting on white space and dropping empty pieces gives non-empty words without white space |
| Text.WordsLeadingSpace | index.js:226 | any run of white space in front changes nothing; with `Text.WordsCons` this fixes the words of text with any spacing |
| Text.WordsCons | index.js:226 | a word followed by white space or by nothing is the first word, and the rest is split the same way |
| Text.WordsJoin | index.js:226 | splitting the words joined by single spaces gives the words back |
| Text.NatToString | index.js:53 | `String(n)` is the shortest digit string whose value is `n` |
| TimeRange.Scan | index.js:81 | an accepted range is the rendering of well-formed pieces: blanks, `h:mm`, blanks, `-`, blanks, `h:mm`, blanks |
| TimeRange.ScanComplete | index.js:81 | every string of the end-of-session pattern is recognised with exactly its own pieces |
| TimeRange.ScanAcceptsExactly | index.js:81 | the scanner accepts a string exactly when the pattern describes it |
| TimeRange.EndMinutesOf | index.js:79-85 | the end minute is the second clock's hour times 60 plus its minute |
| TimeRange.IsStrictExactly | index.js:249 | the `/new` time pattern is the end-of-session pattern with no blanks at either end |
| Commands.StripNewCommand | index.js:225 | when the text starts with `/new` in any letter case, exactly those four characters and the white space after them are removed, and the result does not start with white space; any other text is returned unchanged |
| Commands.ScanPlusMinus | index.js:257 | an accepted text is the rendering of well-formed pieces: sign, blanks, digits, and an optional `@date` |
| Commands.ScanPlusMinusComplete | index.js:257 | every `+N`/`-N` command text is recognised with exactly its own pieces |
| Commands.ScanPlusMinusExactly | index.js:257 | the scanner accepts a text exactly when the command pattern describes it |
| Commands.Clamp | index.js:261 | the count lies in 1..10: kept when already there, 1 when below, 10 when above |
| Commands.DateArgument | index.js:262-272 | a `yyyy-mm-dd` argument is kept, an `m/d` one is completed with the year, and any other token or a missing `@date` gives the empty date |
| Commands.ParsePlusMinus | index.js:255-274 | an accepted command has sign +1 or -1, a count in 1..10, and an empty or `yyyy-mm-dd` date |
| Commands.ParsePlusMinusAccepts | index.js:257-258 | a text is accepted exactly when its trimmed form matches the command pattern |
| Commands.ParsePlusMinusOf | index.js:255-274 | a command surrounded by blanks parses to its sign, its clamped count and its date argument |
| Commands.MaxOption | index.js:235-237 | a `max=NN` option in any letter case gives the capacity `NN`, or 1 when `NN` is zero |
| Commands.ParseNewPayload | index.js:222-252 | `/new` is accepted exactly when it has at least three words, the first a `yyyy-mm-dd` or `m/d` date and the second a strict time range; an accepted one gives a capacity in 1..99, a time range without blanks, and a `yyyy-mm-dd` date |
| Commands.PayloadOfWords | index.js:226-251 | the words give a payload exactly when there are three or more, the date word is well formed and the time word is strict; the payload's date is the date word's and its time range the second word |
| Commands.PayloadOfFields | index.js:229-251 | the date word and time word decide acceptance on their own; the payload carries the date they name and the time word unchanged |
| Commands.DateOfWord | index.js:243-246 | a `yyyy-mm-dd` word is kept, an `m/d` word is completed with the year by `toYYYYMMDDFromMD`, and the result is `yyyy-mm-dd` for a four-digit year |
| Commands.MaxWord | index.js:235-237 | `max=NN`, with `max` in any letter case, is recognised as an option word with no blanks, and sets the capacity `max(1, NN)` |
| Commands.WordsOfNewCommand | index.js:225-226 | stripping `/new`, trimming and splitting a command built from words gives the words back |
| Commands.ParseNewPayloadOf | index.js:222-252 | a `/new` command without `max=` parses to its date, time range and location with the default capacity 8 |
| Commands.ParseNewPayloadWithMaxOf | index.js:222-252 | a `/new` command ending in `max=NN`, with `max` in any letter case, parses to its date, time range, location and `max(1, NN)` |

## Left out

- gsheet.js is not part of this model.
- The JSON store (`loadDB`/`saveDB`, index.js:33-50) is left out. Sessions are passed as a sequence of objects.
- `resolveDisplayName` (index.js:91-117) is left out. It calls the LINE profile API and a name cache; a name is a parameter here.
- The HTTP server, webhook signature checking and `handleEvent` plumbing are left out. The model covers how a `+N`/`-N` target is chosen, but not:
  - the reply texts;
  - the `/list` reply;
  - the refusal to create an already expired session;
  - the re-check that the chosen session has not expired.
- Card and quick-reply rendering is left out: `renderEventCard`, `weekdayLabel` and `buildChooseDateQuickReply`.
- Concurrent webhook calls are left out. Each operation is modelled as atomic.
- The wall clock is left out. Today's date, the minute of the day and the year are parameters.
- Session ids built from `Date.now()` and the `createdAt` stamp are left out. The id is a parameter and `createdAt` is not stored.
- Events.OpenEvents: sorts by code-unit order where the bot uses `localeCompare`. The two orders agree on the `yyyy-mm-dd` date part but not on the time range after it. Under ICU collation `:` sorts before the digits, so on the same date the bot lists `2:00-4:00` before `20:00-22:00`, and the model lists it after. This can change which same-date session a `+N @date` message reaches through `FindByDate`.
- Strings are sequences of Dafny characters, not UTF-16 code units. This matters only for the string order on non-BMP text.
- `parseInt` is modelled on digit strings as an exact integer. The double rounding of very long numerals in `+N` is left out; `Clamp` brings the count to 1..10 anyway.
- The `status` field of `addPeople`'s result ('ok'/'wait') always agrees with `where`. It is modelled by the single `Placement` value.
- Dates.MdDisp: requires a `yyyy-mm-dd` input. The bot only ever stores such dates, because `/new` rejects everything else.
- Dates.ToYMDFromMD: states its shape only for years with four digits.
- Roster.AddConserves: requires `n >= 1` and well-formed lists. The bot only calls `addPeople` with a clamped count in 1..10.
- Roster.AddConserves, Roster.TakeFromFacts, Roster.DeductFacts, Roster.RemoveFacts, Roster.PromoteKeeps, Roster.PromoteFills and Roster.PromoteOrder: require well-formed lists. Well-formed means every count is at least 1 and each user has at most one entry per list. The bot's own operations keep both from an empty session.
- The same user may hold entries on both lists at once, and an attendee's merge ignores `max`. The model keeps both behaviours and claims no invariant they would break.
- Events.Event.RemovePeople and Events.Event.AddPeople: the well-formedness guarantees hold only when the session was valid beforehand. The equalities with `Remove` and `Add` hold unconditionally.
