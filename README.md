# Polymarket new-markets alert bot, modelled in Dafny

The bot polls the Polymarket listing feed (newest market first), finds the
markets whose ids it has not seen, sends one Telegram alert per new market
and keeps the set of seen ids in a JSON file so that a restart does not
announce a market again. This project models that detection and bookkeeping
logic of `polymarket_new_markets_bot.py` and proves its invariants: `seen`
only grows; no market is queued twice, within a tick or across any run of
ticks; a tick delivers oldest-new-first; a failed send stops nothing and
unmarks nothing; the seen set is saved exactly when something was queued; a
repeated tick is a no-op.

Files and modules (one module per part of the program):

- `wrappers.dfy` — `Wrappers.Option`, for absent/null JSON fields and failed fetches.
- `market.dfy` — `Market`: the feed item, `str(m.get("id"))`, `build_market_url`, `format_market_msg`.
- `seen_store.dfy` — `SeenStore`: Python's string order, `sorted(list(ids))` as written by `save_seen`, and `load_seen`.
- `differ.dfy` — `Differ`: specification functions of the tick loop (`NewItems`) and of the start-up `new_ids` (`FreshIds`, `StartItems`), with their lemmas.
- `poll_loop.dfy` — `PollLoop.Bot`: a class holding `seen`, the log of send attempts and a ghost log of saved id lists. `Init` is the start-up pass. `Tick` is one iteration of the `while True` loop. Their loops are methods proved against the `Differ` functions.

The outside world is passed in:

- A fetch is an `Option<seq<Item>>`. `None` means the request failed.
- Send outcomes are an oracle `outcome: nat -> bool`, indexed by the position of the attempt in its batch.
- Whether a save succeeded is a `bool`.
- `iso_to_local_str` is an arbitrary `localize: string -> string`.

Two behaviours of the start-up pass differ from a tick:

- With `NOTIFY_ON_START`, the start-up pass sends in feed order (newest first), unlike a tick, which sends oldest first.
- It sends a repeated id once per occurrence in the snapshot (`Differ.DuplicateAtStart`). When the feed's ids are distinct, it sends the same items a tick would queue (`Differ.StartItemsDistinct`).

A failed `save_seen` is logged as `None` in the ghost log of writes. The file is opened with `"w"` before the dump, so such a write may leave the previous list, an empty file or a partial one. After a restart, `load_seen` reads the last two as the empty set.

## Model

| member | source | states |
|---|---|---|
| Market.EmptyIdOnlyFromEmptyText | polymarket_new_markets_bot.py:145-147 | `str(m.get("id"))` is empty only for a literal `""` id; a missing or null id becomes the non-empty `"None"` and is not skipped |
| Market.Digits | polymarket_new_markets_bot.py:116 | `str` of an integer id is a non-empty string of decimal digits |
| Market.DigitsValue | polymarket_new_markets_bot.py:116 | the decimal digits of a number spell that number |
| Market.IntegerIdsDistinct | polymarket_new_markets_bot.py:116 | two different integer ids become two different keys of `seen` |
| Market.BuildMarketUrl | polymarket_new_markets_bot.py:41-44 | the link is the home page exactly when the slug is absent or empty, otherwise it starts with `https://polymarket.com/event/` |
| Market.UrlRoundTrip | polymarket_new_markets_bot.py:41-44 | reading the slug back from the link gives the slug when it is truthy and nothing for the home page |
| Market.UrlInjective | polymarket_new_markets_bot.py:41-44 | different truthy slugs give different links |
| Market.Join | polymarket_new_markets_bot.py:81 | `sep.join(parts)` has the parts' total length plus one separator between each pair |
| Market.PricesRendering | polymarket_new_markets_bot.py:79-83 | a price list shows at most its first three entries joined by `", "` (one, two or three of them), an empty list shows as empty text, any other value as its `str`, an absent or null value as `"—"` |
| Market.TitleFallback | polymarket_new_markets_bot.py:70 | the title is the question when it is truthy, else the default title |
| Market.CreatedFallback | polymarket_new_markets_bot.py:73-74 | the creation time shown is `createdAt`, else `startDate`, localised, and `"—"` only when both are falsy |
| Market.SplitJoinRoundTrip | polymarket_new_markets_bot.py:84-91 | splitting lines joined with `"\n"` at the line breaks gives the lines back when none holds a break |
| Market.MessageFields | polymarket_new_markets_bot.py:69-92 | an alert consists of exactly its six field lines (title with default fallback, category, created, status, prices, link) whenever the field texts hold no line break |
| SeenStore.LexTransitive | polymarket_new_markets_bot.py:37 | Python's string order is transitive |
| SeenStore.LexTotal | polymarket_new_markets_bot.py:37 | any two distinct strings are ordered one way or the other |
| SeenStore.SortedIds | polymarket_new_markets_bot.py:37 | `sorted(list(ids))` is strictly ascending, has the same elements as `ids` and one entry per id |
| SeenStore.AscendingUnique | polymarket_new_markets_bot.py:37 | only one strictly ascending list has a given set of elements, so the saved list depends on the set alone |
| SeenStore.LoadSeen | polymarket_new_markets_bot.py:24-33 | `load_seen` gives the stored ids, or the empty set when the file is missing or unreadable |
| SeenStore.LoadAfterSave | polymarket_new_markets_bot.py:24-39 | loading what `save_seen` wrote gives back the saved set |
| Differ.NewIndicesPick | polymarket_new_markets_bot.py:143-150 | the queued items are snapshot items at strictly increasing positions (feed order is kept) |
| Differ.NewIndicesIff | polymarket_new_markets_bot.py:143-150 | a position is queued iff its id is non-empty and not in `seen` as the set stood when the loop reached it |
| Differ.FreshAtPosition | polymarket_new_markets_bot.py:144-150 | that set excludes the id iff it was unseen before the tick and does not occur earlier in the snapshot: a repeated id is queued at its first occurrence only |
| Differ.NewItemsFresh | polymarket_new_markets_bot.py:143-150 | every queued item comes from the snapshot, has a non-empty id unseen before the tick, and no id is queued twice |
| Differ.NewItemsCount | polymarket_new_markets_bot.py:143-150 | the queued ids are exactly the snapshot's non-empty ids minus `seen`, one item per id |
| Differ.NothingNewIff | polymarket_new_markets_bot.py:152 | a tick queues nothing (and so neither sends nor saves) iff every non-empty id of the snapshot is already seen |
| Differ.TickIdempotent | polymarket_new_markets_bot.py:141-152 | a second tick on the same snapshot queues nothing |
| Differ.Reversed | polymarket_new_markets_bot.py:154 | `reversed(s)` has position k holding `s[|s|-1-k]` |
| Differ.ChronologicalDelivery | polymarket_new_markets_bot.py:152-158 | for a newest-first feed, the batch a tick sends is in ascending creation order |
| Differ.OrderingExample | polymarket_new_markets_bot.py:153-158 | feed `[newest, mid, oldest]` with `newest` seen is delivered as `[oldest, mid]` |
| Differ.BootstrapThenOneNew | polymarket_new_markets_bot.py:131-150 | after a silent bootstrap on a snapshot, one new market on top of it is the only thing the next tick queues |
| Differ.StartItemsSpec | polymarket_new_markets_bot.py:114-128 | the start-up pass sends one item per entry of `new_ids`, carrying that id, and `seen.update(new_ids)` adds exactly the snapshot's non-empty unseen ids |
| Differ.NewIdsMember | polymarket_new_markets_bot.py:121-123 | `mid in new_ids` holds exactly for items whose id is non-empty and not in the loaded set |
| Differ.StartItemsDistinct | polymarket_new_markets_bot.py:114-125 | with distinct feed ids, the start-up pass sends the items a tick would queue, in feed order |
| Differ.DuplicateAtStart | polymarket_new_markets_bot.py:114-123 | a repeated id is sent twice at start-up but queued once by a tick |
| Differ.TickBatchFacts | polymarket_new_markets_bot.py:141-150 | one tick queues only ids unseen before it, each once, and all of them are seen after it; a failed fetch queues nothing |
| Differ.NoRepeatAcrossTicks | polymarket_new_markets_bot.py:140-166 | over any run of ticks no id is queued twice and no id seen at the start is queued at all |
| PollLoop.Deliver | polymarket_new_markets_bot.py:154-158 | a batch gives one attempt per item, in batch order, the k-th with the k-th outcome |
| PollLoop.FailuresDoNotStopBatch | polymarket_new_markets_bot.py:154-158 | whatever the transport does, every item of the batch is attempted in order; failures only change the delivered flags |
| PollLoop.Bot.constructor | polymarket_new_markets_bot.py:105 | the bot starts with `seen = load_seen()`, no attempts and nothing saved |
| PollLoop.Bot.Send | polymarket_new_markets_bot.py:155-158 | a send appends one attempt with the formatted text and its outcome; an error is only logged |
| PollLoop.Bot.SaveSeen | polymarket_new_markets_bot.py:35-39 | a successful save writes the sorted id list of the current `seen`; a failed one is logged as a write of unknown content |
| PollLoop.Bot.CollectNewIds | polymarket_new_markets_bot.py:114-118 | `new_ids` lists the snapshot's non-empty ids not in `seen`, in feed order, and nothing else |
| PollLoop.Bot.AnnounceNew | polymarket_new_markets_bot.py:120-127 | the announce loop attempts every item whose id is in `new_ids`, in feed order |
| PollLoop.Bot.Init | polymarket_new_markets_bot.py:107-136 | a failed fetch ends the program with nothing changed; otherwise the snapshot's non-empty ids are added to `seen`, the new items are sent (announce mode only), the set is saved iff there were new ids (a failed save logged as such), and a failed save ends the program |
| PollLoop.Bot.MarkNew | polymarket_new_markets_bot.py:143-150 | the selection loop queues `NewItems` and leaves `seen` grown by every non-empty snapshot id |
| PollLoop.Bot.SendReversed | polymarket_new_markets_bot.py:152-158 | one attempt per queued item, in reverse queue order |
| PollLoop.Bot.Tick | polymarket_new_markets_bot.py:140-166 | a failed fetch changes nothing. Otherwise `seen` grows by the snapshot's non-empty ids, the queued items are sent in reverse queue order (the last-queued item, the oldest market, first), and the set is saved iff something was queued; sent ids stay seen whether or not their sends or the save succeed |

## Left out

- The HTTP calls `fetch_latest_markets` and `send_telegram_message` are not modelled. The fetch is an `Option<seq<Item>>` parameter. A send is one outcome taken from an oracle.
- A feed element that is not a JSON object makes `m.get` raise in the middle of a loop. The model does not capture this: a snapshot is a sequence of well-formed `Item`s, and a malformed response counts as a failed fetch.
- `iso_to_local_str` depends on the local time zone and on `datetime`, so it is an arbitrary function parameter.
- `str()` of a price value is given as text. `str()` of an id that is neither text nor an integer (a float, a boolean) is not modelled.
- `active` is modelled by its truthiness only.
- The file I/O and JSON encoding of `load_seen`/`save_seen` are not modelled. `load_seen` takes the parsed `"ids"` list, or nothing on any failure. An `"ids"` value that is not a list of strings is not modelled.
- What `save_seen` writes is a ghost log of id lists. The content of a failed write is not modelled: it is logged as `None`.
- Environment and configuration loading (lines 95-103) is left out. So is the missing-credentials exit.
- The `while True` loop, `asyncio.sleep`, `KeyboardInterrupt` shutdown and `print` logging are left out. One iteration is `Bot.Tick`, and a run of ticks is stated over `Differ.QueuedOverRun`.
