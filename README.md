# Finance dashboard core, modelled in Dafny

The finance dashboard is a single React component file (`src/App.tsx`). It
opens one websocket per configured data provider and keeps the latest quote
per ticker for each provider. Each provider gets a health badge derived from
how often its connection has dropped. Connection events show up as toasts in
one shared list. This project models the sequential logic inside that file
and proves what it promises:

- **Provider configuration** (`ProviderConfig`): `REACT_APP_PROVIDERS` is split
  on `;`, and each entry is split on `=` into a name and an optional url.
  `Split` is JavaScript's `String.prototype.split` with one separator. It is
  proved inverse to `Join`. `ParseProviders` is the `for` loop that pushes one
  provider per entry.
- **Asset table** (`Assets`): the `Map<string, Asset>` kept in a `useRef`. It
  is an `AssetStore` class whose map and key-insertion order are updated in
  place by `Upsert`. The rendered list is `SortedSnapshot`, an insertion sort
  of the map's values by ticker. `Lexicographic` is the ticker order.
- **Status badge** (`Status`): `Classify` maps the reconnect-attempt count to
  `success`, `warning` or `danger`.
- **Connection session** (`Connection`): `Session` holds `reconnectAttempts`
  and `reconnectStopped`. Its three callbacks (`OnOpen`, `OnClose`,
  `OnReconnectStop`) update that state and return the message handed to
  `onError`. The pure `Next`/`Emitted`/`Run`/`Trace` functions specify them
  over arbitrary event sequences.
- **Toast list** (`Toasts`): `AddToast` appends. `CloseToast` filters out
  every entry that is the same object as its argument. `Message` is a class
  (`Messages`), so a Dafny reference stands for JavaScript object identity.

## Modelling notes

- An entry without `=` yields a provider named by the whole entry, with no
  url; every entry yields a name.
- Closing a toast removes every entry that is the same object as the
  message.
- The give-up notification comes from the library's `onReconnectStop`
  callback, guarded by `reconnectStopped`; `onClose` never emits it.
- `onClose` always emits its warning; the code has no intentional-teardown
  case.

## Model

| member | source | states |
|---|---|---|
| Messages.Message.constructor | src/App.tsx:67-71 | a notification carries its level and text; its identity is the object itself |
| Messages.Decimal | src/App.tsx:304 | the attempt count is rendered as a non-empty digit string without leading zeros |
| Messages.DecimalRoundTrip | src/App.tsx:304 | reading the rendered count back gives the count |
| ProviderConfig.Split | src/App.tsx:352-353 | one piece more than there are separators, no piece contains the separator, and joining the pieces gives back the input |
| ProviderConfig.SplitWithoutSeparator | src/App.tsx:352-353 | text without the separator splits into itself alone |
| ProviderConfig.SplitAtFirst | src/App.tsx:353 | the first piece ends exactly at the first separator |
| ProviderConfig.SplitJoin | src/App.tsx:352-353 | splitting undoes joining for pieces free of the separator |
| ProviderConfig.ParseEntry | src/App.tsx:353-354 | the name is the longest `=`-free prefix; the url is absent iff the entry has no `=`, otherwise it runs from the first `=` to the next `=` or the end; the rest is dropped |
| ProviderConfig.EntryRoundTrip | src/App.tsx:353-354 | `name=url` parses back to that name and url |
| ProviderConfig.SingleEntryConfig | src/App.tsx:347-355 | a configuration with one `name=url` entry yields exactly that one provider |
| ProviderConfig.ParseProviders | src/App.tsx:347-355 | one provider per `;`-separated entry, in order, each parsed from its entry; a missing or empty variable yields one provider with empty name and no url |
| Lexicographic.LessIsFirstDifference | src/App.tsx:328 | the ticker order is "proper prefix, or smaller character at the first difference" |
| Lexicographic.Less | src/App.tsx:328 | the comparator: a proper prefix sorts first, and a ticker never sorts before one with a smaller first character |
| Lexicographic.DifferenceIsLess | src/App.tsx:328 | a smaller character at the first difference sorts first |
| Lexicographic.LessHasReason | src/App.tsx:328 | sorting first happens only through a prefix or a first difference |
| Lexicographic.Irreflexive | src/App.tsx:328 | no ticker sorts before itself |
| Lexicographic.Transitive | src/App.tsx:328 | the ticker order is transitive |
| Lexicographic.Total | src/App.tsx:328 | of two different tickers one sorts first |
| Lexicographic.Asymmetric | src/App.tsx:328 | two tickers never sort before each other |
| Lexicographic.LessOrEqualTransitive | src/App.tsx:328 | the non-strict order is transitive |
| Assets.Upserted | src/App.tsx:316 | after `set`, the ticker maps to the new asset, every other key keeps its value, no key is removed, the size grows by one exactly for a new ticker, and entries stay keyed by their own ticker |
| Assets.UpsertIdempotent | src/App.tsx:314-317 | storing the same message twice equals storing it once |
| Assets.ApplyAll | src/App.tsx:314-317 | the table after a stream of messages keeps every earlier key, holds every ticker that arrived, and stays keyed by ticker |
| Assets.Latest | src/App.tsx:314-317 | nothing is found iff no asset of the stream carries the ticker; otherwise the found asset carries it and sits at a position after which no asset carries it (the last one) |
| Assets.ApplyAllSnoc | src/App.tsx:314-317 | handling one more message applies one more `set` to the table so far |
| Assets.ApplyAllHoldsLatest | src/App.tsx:314-317 | after any stream, a ticker is stored iff it was stored before or arrived, and it holds the most recent asset that arrived for it |
| Assets.ApplyAllSize | src/App.tsx:314-317 | the table grows by at most one entry per message |
| Assets.Insert | src/App.tsx:328 | inserting adds exactly the one asset to the multiset of entries |
| Assets.InsertedFrom | src/App.tsx:328 | every entry after insertion is the inserted asset or was there before |
| Assets.InsertSorted | src/App.tsx:328 | insertion keeps a ticker-sorted list sorted |
| Assets.InsertDistinct | src/App.tsx:328 | inserting a new ticker keeps tickers distinct |
| Assets.SortByTicker | src/App.tsx:327-328 | the sort is a permutation of its input |
| Assets.SortByTickerSorted | src/App.tsx:327-328 | the sort's result is ordered by ticker |
| Assets.SortByTickerDistinct | src/App.tsx:327-328 | sorting distinct tickers keeps them distinct |
| Assets.StrictWhenDistinct | src/App.tsx:327-328 | sorted with distinct tickers means strictly ascending |
| Assets.StrictlySortedUnique | src/App.tsx:327-328 | two strictly sorted lists with the same assets are equal |
| Assets.ListingUnique | src/App.tsx:327-330 | a table has exactly one sorted one-entry-per-ticker listing |
| Assets.ValuesInOrder | src/App.tsx:327 | `values()` lists each key's value in key order |
| Assets.ValuesDistinct | src/App.tsx:327 | the table's values have distinct tickers |
| Assets.SortedValuesFromTable | src/App.tsx:327-328 | every rendered asset is the table's value for its ticker |
| Assets.SortedValuesCover | src/App.tsx:327-328 | every stored ticker is rendered |
| Assets.SnapshotContents | src/App.tsx:327-330 | sorting the values lists the table: strictly ascending, every entry from the table, every ticker present |
| Assets.SnapshotIgnoresArrivalOrder | src/App.tsx:327-328 | the rendered list does not depend on the order tickers first arrived in |
| Assets.AssetStore.constructor | src/App.tsx:281 | the table starts empty |
| Assets.AssetStore.Upsert | src/App.tsx:316 | the map becomes `Upserted` of the old map; a new ticker joins the end of the iteration order and an existing one keeps its place; re-storing the stored asset changes nothing; the keyed-by-ticker invariant holds |
| Assets.AssetStore.Receive | src/App.tsx:314-317 | with no message the table is unchanged; otherwise the message is upserted, a new ticker joins the end of the iteration order and an existing one keeps its place; rendering again with the same message is a no-op |
| Assets.AssetStore.Values | src/App.tsx:327 | one value per key in insertion order, tickers distinct |
| Assets.AssetStore.SortedSnapshot | src/App.tsx:327-330 | a permutation of the values, strictly ascending by ticker, one entry per stored ticker, each the stored value |
| Status.Classify | src/App.tsx:319 | 0 attempts is success, 1 is warning, 2 or more is danger; severity is the count capped at 2 |
| Status.ClassifyMonotonic | src/App.tsx:319 | more attempts never give a healthier badge |
| Connection.Next | src/App.tsx:286-308 | one handler step: an open sets attempts to 0, a close adds exactly 1, a stop leaves them; stopped afterwards iff the event is a stop, or it was stopped and the event is not an open |
| Connection.Emitted | src/App.tsx:286-308 | every event emits one message except a stop on an already-stopped session; success iff open, warning iff close, danger iff a stop on a session not yet stopped |
| Connection.Run | src/App.tsx:286-308 | after a run of callbacks, attempts have grown by at most one per event, and the session is stopped only if it was already or some stop arrived |
| Connection.Trace | src/App.tsx:286-308 | a run of callbacks emits at most one notification per event |
| Connection.SinceLastOpen | src/App.tsx:286-298 | the longest suffix of events without an open |
| Connection.OneDangerBetweenOpens | src/App.tsx:299-308 | with no open in between, exactly one danger message if not already stopped and some stop arrives, none otherwise; stopped afterwards iff stopped before or some stop arrived |
| Connection.CountConcat | src/App.tsx:299-308 | counting messages of a level adds up over concatenation |
| Connection.RunSnoc | src/App.tsx:286-308 | handling one more event applies one more step |
| Connection.ClosesSnoc | src/App.tsx:291-298 | one more close adds one to the close count |
| Connection.AttemptsSinceLastOpen | src/App.tsx:286-298 | the attempt counter equals the closes since the last open (plus the starting value if no open occurred) |
| Connection.ReopenBeforeGivingUp | src/App.tsx:286-298 | open, close, open emits success, warning, success and the badge is success again |
| Connection.GiveUpNotifiesOnce | src/App.tsx:291-308 | three closes then two stop reports emit three warnings and one danger |
| Connection.Session.constructor | src/App.tsx:280-283 | a session starts with zero attempts, not stopped |
| Connection.Session.CurrentStatus | src/App.tsx:319 | the badge is success iff no attempts and danger iff two or more |
| Connection.Session.OnOpen | src/App.tsx:286-290 | emits one new success message `Connected to <name>`; attempts become 0 and stopped false |
| Connection.Session.OnClose | src/App.tsx:291-298 | emits one new warning message; attempts grow by exactly one; stopped unchanged |
| Connection.Session.OnReconnectStop | src/App.tsx:299-308 | emits a new danger message naming the attempt count iff not yet stopped; always leaves stopped true and attempts unchanged |
| Toasts.AddToast | src/App.tsx:362-364 | the old list, in order, followed by the new message |
| Toasts.CloseToast | src/App.tsx:359-361 | the message is no longer listed and every other entry keeps its multiplicity |
| Toasts.CloseToastSplits | src/App.tsx:359-361 | closing works piecewise on any split, so the remaining entries keep their order |
| Toasts.CloseAbsent | src/App.tsx:359-361 | closing an unlisted message leaves the list unchanged |
| Toasts.CloseIdempotent | src/App.tsx:359-361 | closing twice equals closing once |
| Toasts.CloseUndoesAdd | src/App.tsx:359-364 | closing a message just added (not listed before) restores the list |
| Toasts.CloseCommutesWithOtherAdd | src/App.tsx:359-364 | closing one message commutes with adding a different one |
| Toasts.CloseKeepsOtherObjects | src/App.tsx:359-361 | a different object stays listed even with equal level and text |

## Left out

- The websocket transport and its reconnect loop (`useWebSocket`, src/App.tsx:285, options at 309-312). The retry ceiling (1000), the 10-second interval and retry-on-error are enforced inside `react-use-websocket`, which is not part of this model. Its callbacks are events that may arrive in any order.
- React semantics are left out: `useState`/`useRef` plumbing, batching and re-render scheduling. Handlers are sequential updates on the current state. `AssetStore.Receive` is the render-time block run once per render.
- Connection.Session.OnClose: models `setReconnectAttempts(reconnectAttempts + 1)` (src/App.tsx:297) as an increment of the current count. The callback's stale closure can actually re-use an older captured count.
- The random message `id` (src/App.tsx:287, 292, 302) is left out. Object identity of `Message` is what the toast list compares.
- The unchecked cast `lastJsonMessage as Asset` (src/App.tsx:315) is left out. The inbound payload is an already-typed `Asset`, because the code does no validation.
- The toast auto-hide timer (src/App.tsx:382) is left out. Its expiry is another `CloseToast` call.
- Assets.SortByTicker: orders tickers by character code, not by the locale collation of `localeCompare`, which belongs to the JavaScript runtime.
- The per-provider fan-out `providers.map(...)` rendering one `ProviderSection` per provider (src/App.tsx:374-376) is not modelled as a member. Each provider owns its own `Session` and `AssetStore` objects, so its state is isolated by construction. Wiring `onError` to `addToast` amounts to calling `AddToast` with a callback's returned message.
- `PredictionForm` (src/App.tsx:73-222) is left out: HTTP requests, polling timers, date handling and a modal.
- `AssetCard` (src/App.tsx:224-271) is left out: wall-clock elapsed time and floating-point `toFixed` formatting.
- Styling, layout and JSX markup, `console.log` and `document.title` (src/App.tsx:19-47, 320-337, 343-349, 357, 366-388) are left out.
