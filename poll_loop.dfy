/**
  The body of `main`: the bot's state (the `seen` set, every send attempt,
  every id list written to disk), the one-time start-up pass and one tick of
  the polling loop. The fetch result, the send outcomes and the outcome of
  each save are supplied by the caller.
 */
module PollLoop {

  import opened Wrappers
  import opened Market
  import opened SeenStore
  import opened Differ

  /** One call of `send_telegram_message`: the market, the text sent, and
      whether the transport accepted it. */
  datatype Attempt = Attempt(item: Item, text: string, delivered: bool)

  /** The attempts of a batch sent one item after another, each with the
      text `render` gives it; the k-th send of the batch succeeds iff
      `outcome(k)`. A failed send is recorded and the next item is still
      attempted. */
  function Deliver(batch: seq<Item>, render: Item -> string, outcome: nat -> bool): (attempts: seq<Attempt>)
    ensures |attempts| == |batch|
    ensures forall k :: 0 <= k < |batch| ==>
      attempts[k] == Attempt(batch[k], render(batch[k]), outcome(k))
  {
    if batch == [] then []
    else
      var m := batch[|batch| - 1];
      Deliver(batch[..|batch| - 1], render, outcome) + [Attempt(m, render(m), outcome(|batch| - 1))]
  }

  lemma DeliverSnoc(batch: seq<Item>, m: Item, render: Item -> string, outcome: nat -> bool)
    ensures Deliver(batch + [m], render, outcome)
      == Deliver(batch, render, outcome) + [Attempt(m, render(m), outcome(|batch|))]
  {
    assert (batch + [m])[..|batch|] == batch;
  }

  /** Whatever the transport does, every item of the batch is attempted, in
      batch order: failures change only the `delivered` flags. */
  lemma FailuresDoNotStopBatch(batch: seq<Item>, render: Item -> string, o1: nat -> bool, o2: nat -> bool)
    ensures var a1, a2 := Deliver(batch, render, o1), Deliver(batch, render, o2);
      |a1| == |a2| == |batch| && forall k :: 0 <= k < |batch| ==> a1[k].item == a2[k].item == batch[k]
  {
  }

  /** How the start-up pass ended: monitoring begins, or the program stops
      because the first fetch failed or writing the seen file failed. */
  datatype InitStatus = Monitoring | FetchFailed | SaveFailed

  class Bot {
    /** `NOTIFY_ON_START`. */
    const notifyOnStart: bool
    /** `iso_to_local_str`, a function of the local time zone. */
    const localize: string -> string
    /** `format_market_msg` with that time conversion. */
    const render: Item -> string
    /** Ids of the markets already handled. */
    var seen: set<string>
    /** Every send attempt so far, in order. */
    var attempts: seq<Attempt>
    /** Every write of the seen file so far, in order: the id list written,
        or None for a failed write, which may have left the file intact,
        empty or partly written (`open(..., "w")` truncates it first). */
    ghost var saved: seq<Option<seq<string>>>

    /** `seen = load_seen()`; `stored` is the parsed id list, None when the
        file is missing or cannot be read or parsed. */
    constructor (stored: Option<seq<string>>, notifyOnStart: bool, localize: string -> string)
      ensures this.notifyOnStart == notifyOnStart && this.localize == localize
      ensures forall m :: render(m) == FormatMarketMsg(m, localize)
      ensures seen == LoadSeen(stored) && attempts == [] && saved == []
    {
      this.notifyOnStart := notifyOnStart;
      this.localize := localize;
      this.render := m => FormatMarketMsg(m, localize);
      seen := LoadSeen(stored);
      attempts := [];
      saved := [];
    }

    /** `send_telegram_message(..., format_market_msg(m))`; `ok` is whether
        it went through. Errors are caught by the caller, so only the
        attempt is recorded. */
    method Send(m: Item, ok: bool)
      modifies this`attempts
      ensures attempts == old(attempts) + [Attempt(m, render(m), ok)]
    {
      attempts := attempts + [Attempt(m, render(m), ok)];
    }

    /** `save_seen(seen)`: on success the file holds the sorted ids; a
        failed write is logged as None. */
    method SaveSeen(ok: bool)
      modifies this`saved
      ensures saved == old(saved) + [if ok then Some(SortedIds(seen)) else None]
    {
      saved := saved + [if ok then Some(SortedIds(seen)) else None];
    }

    /** The first loop of the start-up pass: `new_ids`, the non-empty ids
        of the snapshot not in `seen`, in feed order, duplicates kept. */
    method CollectNewIds(snap: seq<Item>) returns (newIds: seq<string>)
      ensures newIds == FreshIds(snap, seen)
      ensures forall x :: x in newIds <==> x in NonEmptyIds(snap) && x !in seen
    {
      newIds := [];
      for i := 0 to |snap|
        invariant newIds == FreshIds(snap[..i], seen)
      {
        assert snap[..i + 1][..i] == snap[..i];
        var mid := snap[i].id;
        if mid != "" && mid !in seen {
          newIds := newIds + [mid];
        }
      }
      assert snap[..|snap|] == snap;
      StartItemsSpec(snap, seen);
    }

    /** The announce-on-start loop: every snapshot item whose id is in
        `new_ids` is sent, in feed order, one attempt each. */
    method AnnounceNew(snap: seq<Item>, newIds: seq<string>, outcome: nat -> bool)
      requires newIds == FreshIds(snap, seen)
      modifies this`attempts
      ensures attempts == old(attempts) + Deliver(StartItems(snap, seen), render, outcome)
    {
      StartItemsSpec(snap, seen);
      var sent := 0;
      for i := 0 to |snap|
        invariant sent == |StartItems(snap[..i], seen)|
        invariant attempts == old(attempts) + Deliver(StartItems(snap[..i], seen), render, outcome)
      {
        assert snap[..i + 1][..i] == snap[..i];
        var m := snap[i];
        NewIdsMember(snap, seen, i);
        ghost var before := StartItems(snap[..i], seen);
        if m.id in newIds {
          assert StartItems(snap[..i + 1], seen) == before + [m];
          DeliverSnoc(before, m, render, outcome);
          Send(m, outcome(sent));
          sent := sent + 1;
        } else {
          assert StartItems(snap[..i + 1], seen) == before;
        }
      }
      assert snap[..|snap|] == snap;
    }

    /** The start-up pass. A failed fetch stops the program with nothing
        changed. Otherwise `new_ids` are the non-empty ids of the snapshot
        not in `seen`. When announcing on start and there are new ids, every
        snapshot item whose id is new is sent, in feed order; in either mode
        the new ids are then marked seen and saved. A failed save stops the
        program after `seen` was updated. */
    method Init(fetched: Option<seq<Item>>, outcome: nat -> bool, saveOk: bool) returns (status: InitStatus)
      modifies this`seen, this`attempts, this`saved
      ensures fetched.None? ==>
        status == FetchFailed && seen == old(seen) && attempts == old(attempts) && saved == old(saved)
      ensures fetched.Some? ==>
        var anyNew := FreshIds(fetched.value, old(seen)) != [];
        && seen == old(seen) + NonEmptyIds(fetched.value)
        && attempts == old(attempts) +
             (if notifyOnStart && anyNew then Deliver(StartItems(fetched.value, old(seen)), render, outcome) else [])
        && saved == old(saved) + (if anyNew then [if saveOk then Some(SortedIds(seen)) else None] else [])
        && status == (if anyNew && !saveOk then SaveFailed else Monitoring)
      ensures !notifyOnStart ==> attempts == old(attempts)
    {
      if fetched.None? {
        return FetchFailed;
      }
      var snap := fetched.value;
      var newIds := CollectNewIds(snap);
      StartItemsSpec(snap, seen);
      if notifyOnStart && newIds != [] {
        AnnounceNew(snap, newIds, outcome);
        seen := seen + (set x | x in newIds);
        SaveSeen(saveOk);
      } else if newIds != [] {
        seen := seen + (set x | x in newIds);
        SaveSeen(saveOk);
      }
      status := if newIds != [] && !saveOk then SaveFailed else Monitoring;
    }

    /** The first loop of a tick: walks the snapshot in feed order, skips an
        empty id, queues an item whose id is unseen and marks it seen at
        once. */
    method MarkNew(snap: seq<Item>) returns (queued: seq<Item>)
      modifies this`seen
      ensures queued == NewItems(snap, old(seen))
      ensures seen == old(seen) + NonEmptyIds(snap)
    {
      queued := [];
      for i := 0 to |snap|
        invariant queued == NewItems(snap[..i], old(seen))
        invariant seen == old(seen) + NonEmptyIds(snap[..i])
      {
        assert snap[..i + 1][..i] == snap[..i];
        var m := snap[i];
        var mid := m.id;
        if mid == "" {
          continue;
        }
        if mid !in seen {
          queued := queued + [m];
          seen := seen + {mid};
        }
      }
      assert snap[..|snap|] == snap;
    }

    /** `for m in reversed(to_notify)`: one attempt per queued item, last
        queued first, whatever the outcomes. */
    method SendReversed(queued: seq<Item>, outcome: nat -> bool)
      modifies this`attempts
      ensures attempts == old(attempts) + Deliver(Reversed(queued), render, outcome)
    {
      ghost var batch := Reversed(queued);
      for k := 0 to |queued|
        invariant attempts == old(attempts) + Deliver(batch[..k], render, outcome)
      {
        var m := queued[|queued| - 1 - k];
        assert batch[..k + 1] == batch[..k] + [m];
        Send(m, outcome(k));
      }
      assert batch[..|queued|] == batch;
    }

    /** One tick of the polling loop. A failed fetch changes nothing. After a
        successful fetch every non-empty id of the snapshot is marked seen,
        the queued items (`NewItems`) are sent in reverse feed order, and the
        seen set is saved iff something was queued. A failed send or save is
        caught and logged; the ids stay marked seen. */
    method Tick(fetched: Option<seq<Item>>, outcome: nat -> bool, saveOk: bool) returns (queued: seq<Item>)
      modifies this`seen, this`attempts, this`saved
      ensures fetched.None? ==>
        queued == [] && seen == old(seen) && attempts == old(attempts) && saved == old(saved)
      ensures fetched.Some? ==>
        && queued == NewItems(fetched.value, old(seen))
        && seen == old(seen) + NonEmptyIds(fetched.value)
        && attempts == old(attempts) + Deliver(Reversed(queued), render, outcome)
        && saved == old(saved) + (if queued != [] then [if saveOk then Some(SortedIds(seen)) else None] else [])
      ensures old(seen) <= seen
      ensures forall k :: 0 <= k < |queued| ==> queued[k].id != "" && queued[k].id !in old(seen) && queued[k].id in seen
    {
      if fetched.None? {
        return [];
      }
      var snap := fetched.value;
      queued := MarkNew(snap);
      NewItemsFresh(snap, old(seen));
      if queued != [] {
        SendReversed(queued, outcome);
        SaveSeen(saveOk);
      }
      forall k | 0 <= k < |queued| ensures queued[k].id in seen {
        assert queued[k].id in IdsOf(queued);
      }
    }
  }
}
