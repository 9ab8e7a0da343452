# Large-order tracker of `thread.py`, in Dafny

`thread.py` watches the BTC/USDT order books of several exchanges. Its producer
loop makes one pass over the exchanges and then sleeps one second, so one
period is the time the fetches take plus a second. Each pass does the following
for every exchange:

- fetch the order book;
- keep the levels whose amount is at least `threshold = 0.5`, keyed by
  `create_order_key(price, amount)` and stamped with the tick's `current_time`;
- merge them into the module-level `large_orders`. Stored entries older than
  `TIME_WINDOW` (one hour) are dropped, and the new entries are overlaid on top.

The producer then puts `dict(large_orders)` on `order_queue`. The consumer loop
opens every 30 seconds, takes one snapshot off the queue, and writes each side's
number of orders and total amount.

The project models that core:

| file | module | what it models |
|---|---|---|
| `order_key.dfy` | `OrderKey` | `create_order_key`. `Decimal(x)` formatted with `.8f`: round half to even at 8 fractional digits, keep the sign, join with `_`. Also a parser that reads keys back, used to prove that keys identify rounded pairs. |
| `order_window.dfy` | `OrderWindow` | Stored orders, the retention test, the merge expression of the producer, and `clean_old_orders`. |
| `fresh_orders.dfy` | `FreshOrders` | The threshold filter that builds one side of `new_orders`. It is a loop method proved against a recursive specification function. |
| `summary.dfy` | `Summary` | The count and total part of `save_and_print_results`. The loops are methods proved against specification functions. |
| `tracker.dfy` | `Tracker` | The producer and consumer state as classes, and the tick as a pure fold used as the specification. |
| `wrappers.dfy` | `Wrappers` | `Option`. |

Modelling decisions:

- **Numbers.** Prices and amounts are `real`: the exact value of the float that
  `Decimal(float)` sees.
- **Time.** Timestamps are whole microseconds, the resolution of `datetime`, so
  `TIME_WINDOW` is 3 600 000 000.
- **Shared inner dictionaries.** The inner `{'bids': ..., 'asks': ...}`
  dictionary of an exchange is an object (`ExchangeOrders`) whose two fields
  each merge reassigns. A queued snapshot is a map from exchange id to those
  same objects. `dict(large_orders)` is a shallow copy, so the consumer sees the
  bids and asks as they are when it reads the snapshot, not as they were when
  the snapshot was queued (`SnapshotsShowLiveState`).
- **Queue.** The queue is first-in first-out and unbounded. The consumer takes
  the oldest snapshot.
- **Fetches.** A fetch is an input: a `Fetched` value holding either the order
  book or `None` for the `except` branch.

Behaviour of the code that is easy to misread:

- `dict(large_orders)` is a shallow copy. A queued snapshot shares the live inner dictionaries.
- `order_queue` is unbounded, and `order_queue.get()` returns the oldest snapshot.
- An empty side stays the initial `[]` of the results (`NoOrders`). It is not reported as a count of zero.
- An exception anywhere in one exchange's `try` leaves that exchange's stored book
  untouched for the pass. No single order is dropped on its own.
- The window counts from the latest observation. An order seen at minute 0 and
  again at minute 10 is re-stamped at minute 10, so it is still stored at minute
  61 (`WindowCountsFromLastObservation`).
- `current_time = datetime.now()` is naive local wall-clock time, which can step
  back at a daylight-saving change or a clock correction. Stored timestamps then
  lie after `current_time`, and the retention test keeps them, since a negative
  age is at most `TIME_WINDOW`, for up to the size of the step longer
  (`ClockStepBackKeepsEntry`). The model's `now` is unconstrained from one `Tick`
  to the next; the window lemmas assume no stored timestamp is after it.

## Model

| member | source | states |
|---|---|---|
| OrderKey.RoundHalfEven | thread.py:30 | The result is within one half of the input, and an exact tie goes to the even neighbour. This is the rounding the default decimal context applies for `.8f`. |
| OrderKey.RoundHalfEvenUnique | thread.py:30 | Those two properties determine the rounded value uniquely. |
| OrderKey.RoundHalfEvenNegate | thread.py:30 | Rounding half to even is symmetric about zero. |
| OrderKey.RoundHalfEvenOfInteger | thread.py:30 | An integer is not changed by rounding. |
| OrderKey.Canon | thread.py:30 | A printed component carries a minus sign exactly when the value is negative, including values that round to zero. |
| OrderKey.Round8 | thread.py:30 | The value in units of 1e-8, rounded to within half a unit. Its ties go to even (`RoundHalfEven`). |
| OrderKey.CanonUnits | thread.py:30 | The printed magnitude is the absolute value of the value rounded to 8 fractional digits. |
| OrderKey.CanonOfEightDigits | thread.py:30 | A value with at most 8 fractional digits is printed exactly. |
| OrderKey.NatDigits | thread.py:30 | The integer part is printed as at least one decimal digit and nothing else. |
| OrderKey.PaddedDigits | thread.py:30 | The fraction is printed as exactly the requested number of decimal digits. |
| OrderKey.FormatDec8 | thread.py:30 | A printed component never contains `_`, so the separator is unambiguous. |
| OrderKey.CreateOrderKey | thread.py:28-30 | The key of a price and an amount. `ParseCreateOrderKey` proves it reads back as the signed rounded pair, and `KeysEqualIffSameCanon` proves that equal keys mean equal rounded pairs, in both directions. |
| OrderKey.ParseNatDigits | thread.py:30 | The integer digits read back as the integer part. |
| OrderKey.ParsePaddedDigits | thread.py:30 | The zero-padded fraction digits read back as the fraction. |
| OrderKey.ParseUnsignedBody | thread.py:30 | The unsigned text `digits.dddddddd` reads back as the magnitude and starts with a digit. |
| OrderKey.ParseFormatDec8 | thread.py:30 | Every printed component reads back as the sign and magnitude it was printed from. |
| OrderKey.IndexOfSeparator | thread.py:30 | The first `_` of a key is the one joining price and amount. |
| OrderKey.ParseCreateOrderKey | thread.py:28-30 | Reading a key back gives the rounded, signed price and amount it was made from. The key is therefore a function of the rounded pair and loses nothing else. |
| OrderKey.KeysEqualIffSameCanon | thread.py:28-30 | Two pairs get the same key if and only if their prices and their amounts print the same sign and the same rounded magnitude. |
| OrderKey.CanonEqualIff | thread.py:30 | Two values print the same component if and only if they round to the same 8-digit value and have the same sign. |
| OrderKey.KeysEqualIffSameRounding | thread.py:28-30 | For non-negative prices and amounts, the keys are equal if and only if both rounded values are equal. |
| OrderKey.NegativeZeroKeyDiffers | thread.py:28-30 | -0.000000001 and 0 round to the same value but give different keys, because the sign survives. |
| OrderWindow.InWindow | thread.py:59 | The retention test: an entry whose age at the tick's time is at most one hour. `RetainFresh` and `CleanOldOrders` state exactly which entries it keeps. |
| OrderWindow.RetainFresh | thread.py:58-59 | The comprehension keeps a stored key exactly when its entry's age is at most one hour, and keeps the entry unchanged. |
| OrderWindow.Merge | thread.py:57-61 | The merged keys are exactly the new keys plus the stored keys still in the window. A new entry wins on a shared key. A kept stored entry is unchanged. |
| OrderWindow.CleanOldOrders | thread.py:32-35 | On both sides, exactly the entries with age at most one hour remain, unchanged. |
| OrderWindow.MergeBook | thread.py:56-61 | The merge of both sides of one exchange. `MergeBookCleansFirst` proves it is `clean_old_orders` followed by the overlay of the new sides, and `Merge` states each side's keys and entries. |
| OrderWindow.MergeDropsExpired | thread.py:57-61 | An expired stored entry that is not observed again is gone after the merge. |
| OrderWindow.MergeStaysInWindow | thread.py:57-61 | If no stored timestamp is in the future and every new entry is stamped now, every entry after the merge is at most one hour old. |
| OrderWindow.MergeKeepsLarge | thread.py:47-61 | The merge keeps every entry at or above the threshold when both inputs are. |
| OrderWindow.MergeKeepsKeys | thread.py:48-61 | The merge keeps every entry filed under the key of its own price and amount when both inputs are. |
| OrderWindow.MergeBookCleansFirst | thread.py:56-61 | The producer's merge evicts exactly as `clean_old_orders` does, then overlays the new sides. |
| OrderWindow.WindowCountsFromLastObservation | thread.py:39-61 | An order seen at minute 0 and again at minute 10 is still stored at minute 61, stamped minute 10. One seen only at minute 0 is gone. |
| OrderWindow.ClockStepBackKeepsEntry | thread.py:39-59 | An entry stamped at clock hour 2 is kept by a merge after the clock has stepped back to hour 1, with a timestamp after that merge's time. A merge at clock hour 3, two hours after the stamp in real time, still keeps it. |
| OrderWindow.CleanOldOrdersIdempotent | thread.py:32-35 | Cleaning twice at the same instant equals cleaning once. |
| OrderWindow.CleanOldOrdersLater | thread.py:32-35 | Cleaning at an earlier and then a later instant equals cleaning at the later one. |
| FreshOrders.FreshSide | thread.py:45-53 | One side of `new_orders`. `FreshSideFiltered`, `FreshSideFromLevels`, `FreshSideComplete`, `FreshSideOnlyQualifying` and `FreshSideLastWins` characterise it completely. |
| FreshOrders.FreshSideFiltered | thread.py:45-53 | Every entry of a freshly built side has amount at or above the threshold (boundary included), is stamped with the tick's time, and is filed under its own key. |
| FreshOrders.FreshSideFromLevels | thread.py:46-53 | Every fresh entry has the price and amount of one of the fetched levels. |
| FreshOrders.FreshSideComplete | thread.py:46-49 | Every level with amount at or above the threshold has its key in the fresh side. |
| FreshOrders.FreshSideOnlyQualifying | thread.py:46-49 | A key that no qualifying level produces is absent. Levels below the threshold contribute nothing. |
| FreshOrders.FreshSideLastWins | thread.py:46-53 | Under a key shared by several levels, the entry is the last qualifying level in the order the exchange returned them. |
| FreshOrders.BuildSide | thread.py:45-53 | The nested loop's in-place insertions produce exactly the specified fresh side. |
| Summary.SumAmounts | thread.py:96 | The `sum` of the amounts of a side. `SumAmountsRemove` proves it does not depend on visiting order, and `SumAmountsAtLeast` bounds it from below. |
| Summary.SumAmountsRemove | thread.py:96 | The total of the amounts does not depend on the order the entries are visited. |
| Summary.SumAmountsAtLeast | thread.py:96 | A total of amounts that each pass the threshold is at least threshold times their number. |
| Summary.SummarizeSideSpec | thread.py:95-104 | The summary of one side. `SummaryRespectsThreshold` states its cases and bound, and `SummarizeSide` is proved to compute it. |
| Summary.ResultsSpec | thread.py:90-104 | The summary of every exchange of a snapshot. `ResultsRespectThreshold` states its keys and bounds, and `SaveAndPrintResults` is proved to compute it. |
| Summary.SummaryRespectsThreshold | thread.py:95-104 | A side is reported as `[]` if and only if it is empty. Otherwise its count is its number of entries (at least 1) and its total is at least threshold times the count. |
| Summary.ResultsRespectThreshold | thread.py:90-104 | Every exchange of the snapshot gets an entry, and every reported side respects the threshold bound. |
| Summary.SummarizeSide | thread.py:95-104 | The loop computes `[]` for an empty side, and otherwise `len` and the sum of the amounts. |
| Summary.SaveAndPrintResults | thread.py:90-104 | The loop over the snapshot's exchanges builds the summary of each of them and of nothing else. |
| Tracker.StoredBook | thread.py:57 | The `defaultdict` lookup: the stored book, or two empty sides for an exchange not yet present. `ApplyTickMergesFetched` and `MergeExchange` state the merge in terms of it. |
| Tracker.UpdateExchange | thread.py:41-64 | A failed fetch leaves the state unchanged. A successful one adds only that exchange's key. No other exchange changes. |
| Tracker.ApplyTick | thread.py:40-64 | A tick never removes an exchange. |
| Tracker.ApplyTickLeavesOthers | thread.py:40-64 | An exchange that is not fetched successfully in a tick keeps its stored bids and asks, or stays absent. |
| Tracker.ApplyTickMergesFetched | thread.py:40-61 | An exchange fetched successfully ends the tick with its stored book (or two empty sides) merged with its filtered book. |
| Tracker.UpdateExchangeWellFormed | thread.py:45-61 | Processing one exchange keeps every stored entry at or above the threshold and filed under its own key. |
| Tracker.ApplyTickWellFormed | thread.py:38-64 | A whole tick keeps every stored entry at or above the threshold and filed under its own key. |
| Tracker.MergeBookAboveThreshold | thread.py:47-61 | Merging filtered sides into one exchange keeps the threshold invariant of the whole state. |
| Tracker.ApplyTickWindow | thread.py:39-61 | If no stored timestamp is after the tick's time, none is after it afterwards, and an exchange fetched successfully holds only entries at most one hour old. |
| Tracker.UpdateExchangeNothingAfter | thread.py:39-61 | Processing one exchange puts no timestamp after the tick's time. |
| Tracker.ApplyTickNothingAfter | thread.py:39-64 | A whole tick puts no timestamp after the tick's time. |
| Tracker.View | thread.py:90-95 | Reading a snapshot gives one book per exchange it holds. |
| Tracker.ExchangeOrders.constructor | thread.py:20 | The `defaultdict` factory creates two empty sides. |
| Tracker.ExchangeOrders.MergeIn | thread.py:56-61 | Both sides of the inner dictionary are replaced in place by their merges. |
| Tracker.LargeOrderTracker.constructor | thread.py:20-26 | The tracker starts with no exchanges and an empty queue, and every inner dictionary it will hold is newly allocated. |
| Tracker.LargeOrderTracker.SnapshotsShowLiveState | thread.py:57-67 | Every queued snapshot reads as the current bids and asks of the exchanges it holds. |
| Tracker.LargeOrderTracker.AddExchange | thread.py:57 | A first lookup of an exchange creates one new inner dictionary with empty sides. It keeps every other exchange and the queue. |
| Tracker.LargeOrderTracker.MergeSides | thread.py:56-61 | The in-place merge of an existing exchange changes that exchange's book to the merge and nothing else. |
| Tracker.LargeOrderTracker.MergeExchange | thread.py:56-61 | The stored book (or two empty sides) of the exchange becomes the merge. Every existing inner dictionary stays in place, and only new ones are allocated. |
| Tracker.LargeOrderTracker.Tick | thread.py:38-67 | After the loop over the fetched exchanges, the stored state is the specified fold. Existing inner dictionaries are kept, and the only new ones are newly allocated. The queue gains one snapshot sharing them. |
| Tracker.LargeOrderTracker.AnalyzeAndOutput | thread.py:74-77 | An empty queue gives nothing and stays empty. Otherwise the oldest snapshot is removed and summarised from the live contents of its exchanges, and every reported side respects the threshold bound. The inner dictionaries are left as they are. |
| Tracker.Replay | thread.py:111-120 | The books after a run of the two threads. Only the producer passes change them (`ReplayWellFormed`, `Run`). |
| Tracker.ReplayWellFormed | thread.py:111-120 | After any interleaving of producer passes and consumer reads, every stored entry is at or above the threshold and filed under its own key. |
| Tracker.Run | thread.py:111-120 | From a new tracker, any interleaving of whole producer passes and consumer reads leaves the tracker valid with the replayed books, and every report meets the threshold bound on each side. |

## Left out

- The ccxt clients and `fetch_order_book` are left out. They are external calls, modelled as the `Fetched` input: a book or a failure.
- The `time.sleep` cadences and the wall-clock `time.time()` gating of the consumer are left out. `Run` takes any order of whole producer passes and consumer reads; which orders the clocks allow is not modelled.
- Concurrency within a step is left out. A producer pass and a consumer read never overlap in the model, so the race between a merge and a consumer read is not modelled.
- Tracker.LargeOrderTracker.AnalyzeAndOutput: its threshold bound on reports holds only when a read is not interleaved with a merge. thread.py:95-97 reads `orders[side]` three times, and a reassignment at thread.py:57 can fall between those reads. Then `len` and `sum` can come from different merges: a side with 3 entries at the `if` and `len` but 1 at the `sum` gives a total of 0.5, below 1.5. A side emptied after the `if` is reported as a count of 0. The model reads each side once (`View`).
- `queue.Queue` is modelled as a sequence. Its blocking and thread-safety are not modelled.
- The `print` output and the JSON append to `large_orders.json` are left out. The `"timestamp"` string of the results is left out too.
- Floating-point arithmetic is not modelled. The sum of amounts is exact over the reals, and float rounding of the running total in iteration order is not captured.
- `Decimal` values that are NaN or infinite, and the float `-0.0`, are not modelled. Reals have no negative zero.
- `clean_old_orders` is modelled as a function and related to the merge, although the producer never calls it.
- Exceptions raised while reading the fetched levels are folded into the `None` case of `Fetched`. That matches the code, which skips the whole exchange for that tick.
- The class invariant `Valid` records only the threshold invariant of the stored entries. That every entry is filed under its own key is proved on the pure fold (`ApplyTickWellFormed`), which `Tick` is tied to by its postcondition.
