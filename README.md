# check_discogs: the notification quota, modelled in Dafny

`check.js` is a scheduled checker. On each run it does the following:
- It reads the list of watched Discogs release IDs from the comma-separated `ALBUMS_TO_WATCH` setting.
- It loads a small state document: for each release, how many notifications have already gone out for it.
- For each watched release, in order, it asks the marketplace whether the release is for sale.
- For a release that is for sale and has had fewer than three notifications, it sends one Telegram message and increments that release's counter.
- It writes the state back only if any counter changed.

This project models that core and proves what the quota policy guarantees.

- `watchlist.dfy` (module `WatchList`) models the parsing of the setting: `split(",")`, `trim()` with the ECMAScript whitespace set, and `Number()` on decimal digit strings, read as exact natural numbers. It also gives the spelling of an ID as a property name of the state object.
- `availability.dfy` (module `Availability`) models the "for sale" decision and the notification text of `checkAlbumAvailability`. The HTTP lookup is an input: a fetched release document, or a failure.
- `quota.dfy` (module `Quota`) states the loop as functions of these three things:
  - the loaded state;
  - the watch list;
  - the checker's answer for each entry.

  The functions are `StateAfter` (the final counters), `Sent` (which entries got a send attempt) and `SentLog` (the messages handed to the messenger, in order). The lemmas about them are the policy's guarantees: per-entry effects, the quota cap, monotonicity, unwatched keys, the order of sends, and the totals.
- `run.dfy` (module `Run`) holds `CheckAllAlbums`, the imperative loop over a map and a growing send log, with its loop invariants. It is proved equal to the `Quota` functions, and the rule "save exactly when something was sent" is proved about it. `CheckRelease` is the loop body for one release, once its availability answer is known. `LoadSentData` is the empty-map fallback of the state load.
- `scenarios.dfy` (module `Scenarios`) holds concrete runs: a typical setting, a trailing comma, a whitespace-only setting, a first find, a used-up quota, and a failed load.
- `wrappers.dfy` holds the `Option` type.

Inputs and outputs replace the outside world:
- the outcome of loading the state is a `LoadOutcome` parameter;
- each marketplace reply is a `Lookup` parameter, one per watch-list entry, so a release listed twice may get two different replies;
- messages sent are returned as a sequence;
- saves are returned as a sequence of at most one state.

The state is a `map<string, int>` keyed by the property name JavaScript derives from the numeric ID: the decimal digits of the number, which is what `String(n)` gives for an integer below 10^21, and `"NaN"` for NaN.

Where the code and the written description of the system differ, the model follows the code:
- The counter is incremented once per send *attempt*: `sendTelegramMessage` swallows every error (check.js:77-79) and the increment at check.js:131 follows unconditionally. The model claims nothing about delivery.
- An ID may appear more than once in the watch list; nothing forbids it. Each occurrence is a separate step, and the cap still holds.
- An empty piece of the setting converts to 0 (`Number("") === 0`). A trailing comma therefore adds release 0, and a setting made only of whitespace watches release 0 rather than nothing.
- "Not found" for a non-numeric quantity is only partly what the code does. JavaScript's `&&` and `>` coerce a numeric string such as `"5"` to a number, so that quantity counts as for sale. The model types the quantity as an optional integer (see Left out).
- Counters are read with `sentData[id] || 0`, so any stored integer is taken as is, negative ones included. The model uses `int`, not `nat`, for counters, with exact arithmetic (see Left out for where JavaScript's numbers differ).

## Model

| member | source | states |
|---|---|---|
| WatchList.ParseWatchList | check.js:12-14 | an unset or empty setting gives the empty list; otherwise exactly one ID per comma-separated piece (commas + 1), entry i being `Number` of the trimmed piece i |
| WatchList.ParseSpelledList | check.js:12-14 | a setting that spells decimal IDs separated by commas, with any whitespace around each, parses back to exactly those IDs in order |
| WatchList.PaddedDecimal | check.js:13 | a decimal spelling with whitespace around it contains no comma and converts back, after trimming, to the number it spells |
| WatchList.Trim | check.js:13 | `trim()`: the input is the result with whitespace only before and after it, and the result neither starts nor ends with whitespace |
| WatchList.SkipLeading | check.js:13 | the first position from `i` on that is not whitespace: everything skipped is whitespace and the character there is not |
| WatchList.SkipTrailing | check.js:13 | the end of a stretch once its trailing whitespace is dropped: everything dropped is whitespace and the last kept character is not |
| WatchList.TrimPadded | check.js:13 | `trim()` of any whitespace + t + whitespace, where t has no whitespace at its ends, is exactly t (whitespace-only input trims to "") |
| WatchList.DigitsTrimmed | check.js:13 | a string of digits is unchanged by `trim()` |
| WatchList.Split | check.js:13 | `split(",")`: one piece more than the number of commas, and no piece contains a comma |
| WatchList.JoinSplit | check.js:13 | joining the pieces of `split(",")` with commas gives back the original string |
| WatchList.SplitJoin | check.js:13 | splitting a comma-join of comma-free pieces gives back exactly those pieces |
| WatchList.SplitPiece | check.js:13 | a comma-free prefix followed by a comma is split off as the first piece |
| WatchList.Decimal | check.js:128 | the property-name spelling of a number: non-empty, decimal digits only, and no leading zero unless the number is 0 |
| WatchList.NumberOfDecimal | check.js:13 | `Number(String(n)) === n` for every natural n |
| WatchList.KeyOfInjective | check.js:128-131 | two IDs use the same state key if and only if they are the same ID, so distinct releases never share a counter |
| Availability.IsForSale | check.js:98 | `num_for_sale && num_for_sale > 0` holds exactly when the quantity is present and positive |
| Availability.FoundMessage | check.js:99-105 | the notification text contains the title and the link, and has the template's length |
| Availability.CheckAlbumAvailability | check.js:86-116 | found if and only if the lookup succeeded and the quantity is present and positive (every failure reads as not found); when found, the message contains the title and the link ("undefined" for a missing field) |
| Quota.Sent | check.js:127-129 | one send flag per watch-list entry, and only found entries are ever flagged |
| Quota.PrefixStep | check.js:124-138 | the loop over one more entry applies one more step and appends that step's message, if any, to the end of the log |
| Quota.SentExactly | check.js:127-132 | entry i gets a send attempt if and only if it was found and the counter, as the loop left it after the earlier entries, is below 3 |
| Quota.SendLogInOrder | check.js:124-130 | the messages sent are, in watch-list order, exactly the checker's messages for the entries that got a send attempt, each once |
| Quota.OneIncrementPerAttempt | check.js:127-132 | a key's final counter is its loaded counter (absent = 0) plus the number of send attempts for it |
| Quota.UntouchedKey | check.js:127-137 | a key with no send attempt ends exactly as loaded: present with the same value, or absent |
| Quota.UnwatchedKeysUnchanged | check.js:128-131 | keys of unwatched releases keep their values, and no key other than a watched release's is added |
| Quota.CountersNeverDecrease | check.js:128-131 | no key is removed and no counter decreases during a run |
| Quota.CounterCapped | check.js:124-132 | whatever the watch list, duplicates included, a key's final counter is at most the larger of its loaded counter and 3 |
| Quota.QuotaExhausted | check.js:129-137 | a release whose counter is 3 or more gets no send attempt and keeps its counter, however often it is found |
| Quota.WatchedOnce | check.js:127-137 | for a release listed once: found and below 3 gives exactly one send attempt and counter + 1; not found, or at the limit, gives no attempt and leaves its entry as it was |
| Quota.SendsEqualIncrements | check.js:124-132 | the number of messages sent equals the total of all counter increments, over any list of distinct keys covering the watch list |
| Quota.NoSendsNoChange | check.js:124-138 | a run with no send attempt leaves the state exactly as loaded |
| Quota.ChangedIffSent | check.js:122-145 | the final state differs from the loaded one if and only if at least one message was sent |
| Quota.NothingFoundIsNoOp | check.js:127 | a run in which nothing is found sends nothing and leaves the state unchanged, so repeating it behaves the same |
| WatchList.IsTrimmable | check.js:13 | the set of characters `trim()` removes (ECMAScript white space and line terminators); none of them is a digit or a comma, so trimming never touches an ID or a separator |
| WatchList.ToNumber | check.js:13 | `Number()` of a piece: a number exactly when the piece is all decimal digits, whose value it then is; the empty piece is 0; anything else is NaN |
| WatchList.KeyShape | check.js:128 | the state key of an ID is never empty, and is all digits exactly when the ID is a number (NaN's key is "NaN") |
| Availability.Show | check.js:104 | a present field is inserted into the message as it is; a missing one reads "undefined" |
| Quota.SendRule | check.js:127-129 | `Count` and `Sends`: an absent key reads as 0 (`\|\| 0`), and an entry is sent exactly when it was found and its key is absent or holds a counter below 3 |
| Quota.StepEffect | check.js:127-132 | one step: a send increments the entry's counter by one (creating it at 1), no other key is added, removed or changed, and without a send nothing changes |
| Quota.SentLog | check.js:124-138 | the send log has at most one message per watch-list entry |
| Run.LoadSentData | check.js:16-31 | a failed load gives the empty state, and a successful one the stored mapping |
| Run.Answers | check.js:125 | one answer per lookup, each being the availability check of that lookup |
| Run.CheckRelease | check.js:127-138 | one pass of the loop body, given the availability answer: the new state is one quota step, and the message is sent exactly when that step sends |
| Run.CheckAllAlbums | check.js:118-147 | the loop's final state and send log equal StateAfter and SentLog; the state is saved once if it changed and never otherwise, which happens exactly when something was sent (an empty watch list saves nothing) |
| Scenarios.TwoWatchedReleases | check.js:12-14 | a setting such as "111, 222" lists the two releases in order |
| Scenarios.TrailingCommaWatchesZero | check.js:12-14 | a trailing comma after an ID adds release 0 |
| Scenarios.WhitespaceOnlyWatchesZero | check.js:12-14 | a non-empty whitespace-only setting watches release 0 |
| Scenarios.FirstFind | check.js:124-132 | from an empty state, the release for sale gets one message naming its title and link and its counter becomes 1, and the other release gets nothing |
| Scenarios.QuotaUsedUp | check.js:129-137 | a release at 3 is found again, but nothing is sent and the state stays as loaded |
| Scenarios.FirstFindRun | check.js:118-147 | the whole first-find run from a failed load: the one message is sent and the state `{"111": 1}` is written back once |
| Scenarios.QuotaUsedUpRun | check.js:118-147 | the whole run with a used-up quota: no message, no write-back, state as loaded |
| Scenarios.FailedLoadIsFreshRun | check.js:28-31 | for any watch list and replies, a run whose state load failed sends the same messages, saves the same and ends in the same state as a run from an empty stored state |
| Scenarios.DecimalSpellings | check.js:128 | the state keys of releases 111 and 222 are "111" and "222" |

## Left out

- All network traffic is out: the Gist read and write (check.js:18-27, 43-52), the Telegram request (check.js:59-76) and the Discogs request (check.js:87-96). Their outcomes are parameters, and their effects are returned sequences.
- `JSON.parse` and `JSON.stringify` of the state document are out. A stored document is a `Loaded` mapping; one that does not parse is `LoadFailed`. The round trip through the remote store is not modelled.
- Properties across runs (counters never decreasing from one run to the next) are out, because they depend on how the remote store behaves.
- `saveSentData` errors are swallowed and logged (check.js:53-55). The model records each call to the store, not whether the store accepted it.
- `delay`, `await` suspension points, `process.exit`, `dotenv` and environment reading, and logging are out. They do not affect the state.
- Not-modelled `Number()` cases: for a trimmed piece, the model covers "" (0) and decimal digit strings. Signs, fractions, exponents, hexadecimal, binary, octal and `Infinity` are all read as NaN. JavaScript would give numbers for most of them, whose keys `String(n)` spells differently.
- Availability.IsForSale: the quantity is an optional integer. JavaScript's coercion of strings, booleans or fractions in `num_for_sale` is not modelled.
- Availability.CheckAlbumAvailability: the document shape is not modelled. A reply that is JSON `null` makes `data.num_for_sale` throw (check.js:98), which is caught, so it is a `Failed` lookup. A reply that is a JSON number, string, boolean or array has no `num_for_sale`, so it is a `Fetched` release with no quantity and is not found (check.js:106-108).
- Availability.Show: a title or link is either a string or missing ("undefined"). A field that is JSON `null` would read "null", and a number or other value would read as its `String()`; `Option<string>` does not express those.
- WatchList.ToNumber, WatchList.Decimal and the Quota counters use exact integers, while JavaScript numbers are doubles. They agree for IDs and counters of magnitude below 2^53. Above that, `Number()` rounds, so two different digit strings can give the same ID and share one state key. `String(n)` spells numbers of 10^21 and more with an exponent ("1e+21"), unlike `WatchList.Decimal`. A digit string of more than about 309 digits becomes `Infinity`, whose key is "Infinity". For a counter of magnitude 2^53 or more (say −1e20), `count + 1` may equal `count`, so Quota.OneIncrementPerAttempt and Quota.ChangedIffSent hold in JavaScript only for counters below 2^53 in magnitude.
- State entries that are not integers (strings, `null`, fractions) are out: the counters are `int`. A state document that is JSON `null` would make check.js:128 throw and end the run. The model types the stored state as a mapping and does not cover this.
- Messages are counted as send attempts. Whether Telegram delivered them is not modelled, so there is no delivery guarantee.
