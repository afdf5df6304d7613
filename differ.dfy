/**
  Which items of a fetched snapshot are new. The per-tick loop of `main`
  walks the snapshot in feed order, skips an empty id, queues an item whose
  id is not yet seen and marks that id seen at once; the one-time start-up
  pass instead collects `new_ids` against the loaded set without marking
  anything until it is done. Both are defined here by recursion on the last
  item of the snapshot, i.e. one loop step at a time.
 */
module Differ {

  import opened Wrappers
  import opened Market

  /** A feed item that the loop would queue against the given seen set. */
  predicate Fresh(m: Item, seen: set<string>) {
    m.id != "" && m.id !in seen
  }

  /** Every non-empty id of the snapshot: what the tick loop adds to `seen`. */
  function NonEmptyIds(snap: seq<Item>): set<string> {
    if snap == [] then {}
    else
      var m := snap[|snap| - 1];
      NonEmptyIds(snap[..|snap| - 1]) + (if m.id != "" then {m.id} else {})
  }

  /** Every non-empty id of the snapshot is collected ... */
  lemma {:induction false} NonEmptyIdsHas(snap: seq<Item>, i: nat)
    requires i < |snap| && snap[i].id != ""
    ensures snap[i].id in NonEmptyIds(snap)
  {
    if i < |snap| - 1 {
      var prefix := snap[..|snap| - 1];
      assert prefix[i] == snap[i];
      NonEmptyIdsHas(prefix, i);
    }
  }

  lemma {:induction false} NonEmptyIdsNotEmpty(snap: seq<Item>)
    ensures "" !in NonEmptyIds(snap)
  {
    if snap != [] {
      NonEmptyIdsNotEmpty(snap[..|snap| - 1]);
    }
  }

  /** ... and nothing else is. */
  lemma {:induction false} NonEmptyIdsOnly(snap: seq<Item>, x: string) returns (i: nat)
    requires x in NonEmptyIds(snap)
    ensures x != "" && i < |snap| && snap[i].id == x
  {
    var prefix := snap[..|snap| - 1];
    if x in NonEmptyIds(prefix) {
      i := NonEmptyIdsOnly(prefix, x);
      assert prefix[i] == snap[i];
    } else {
      i := |snap| - 1;
    }
  }

  /** The ids of a list of items. */
  function IdsOf(items: seq<Item>): set<string> {
    set k | 0 <= k < |items| :: items[k].id
  }

  /** `to_notify` after the tick loop over `snap`, which started from `seen`:
      the seen set at the time the loop reaches an item is `seen` plus the
      non-empty ids before it. */
  function NewItems(snap: seq<Item>, seen: set<string>): seq<Item> {
    if snap == [] then []
    else
      var prefix := snap[..|snap| - 1];
      var m := snap[|snap| - 1];
      NewItems(prefix, seen) + (if Fresh(m, seen + NonEmptyIds(prefix)) then [m] else [])
  }

  /** The feed positions of the queued items. */
  function NewIndices(snap: seq<Item>, seen: set<string>): seq<nat> {
    if snap == [] then []
    else
      var prefix := snap[..|snap| - 1];
      var m := snap[|snap| - 1];
      NewIndices(prefix, seen) + (if Fresh(m, seen + NonEmptyIds(prefix)) then [|prefix|] else [])
  }

  /** The queued items are the snapshot items at strictly increasing
      positions: a tick keeps feed order. */
  lemma {:induction false} NewIndicesPick(snap: seq<Item>, seen: set<string>)
    ensures var idx := NewIndices(snap, seen);
      && |NewItems(snap, seen)| == |idx|
      && (forall k :: 0 <= k < |idx| ==> idx[k] < |snap| && NewItems(snap, seen)[k] == snap[idx[k]])
      && (forall a, b :: 0 <= a < b < |idx| ==> idx[a] < idx[b])
  {
    if snap != [] {
      var prefix := snap[..|snap| - 1];
      NewIndicesPick(prefix, seen);
      var idx, q := NewIndices(snap, seen), NewItems(snap, seen);
      var idxp, qp := NewIndices(prefix, seen), NewItems(prefix, seen);
      forall k | 0 <= k < |idxp| ensures idx[k] == idxp[k] && q[k] == qp[k] && snap[idxp[k]] == prefix[idxp[k]] {
      }
    }
  }

  /** Position i is queued iff its item is fresh against the seen set as it
      stood when the loop reached it. */
  lemma {:induction false} NewIndicesIff(snap: seq<Item>, seen: set<string>, i: nat)
    ensures i in NewIndices(snap, seen) <==> i < |snap| && Fresh(snap[i], seen + NonEmptyIds(snap[..i]))
  {
    if snap != [] {
      var prefix := snap[..|snap| - 1];
      var idxp := NewIndices(prefix, seen);
      NewIndicesPick(prefix, seen);
      assert |prefix| !in idxp;
      if i < |prefix| {
        NewIndicesIff(prefix, seen, i);
        assert snap[..i] == prefix[..i];
      } else if i == |prefix| {
        assert snap[..i] == prefix;
      }
    }
  }

  /** The seen set when the loop reaches position i excludes the item's id
      exactly when it is unseen and does not occur earlier in the snapshot:
      a repeated id is queued at its first occurrence only. */
  lemma FreshAtPosition(snap: seq<Item>, seen: set<string>, i: nat)
    requires i < |snap|
    ensures Fresh(snap[i], seen + NonEmptyIds(snap[..i])) <==>
      snap[i].id != "" && snap[i].id !in seen && forall j :: 0 <= j < i ==> snap[j].id != snap[i].id
  {
    var x := snap[i].id;
    if x != "" && exists j :: 0 <= j < i && snap[j].id == x {
      var j :| 0 <= j < i && snap[j].id == x;
      assert snap[..i][j].id == x;
      NonEmptyIdsHas(snap[..i], j);
    }
    if x in NonEmptyIds(snap[..i]) {
      var j := NonEmptyIdsOnly(snap[..i], x);
      assert snap[j].id == x;
    }
  }

  /** Every queued item is a feed item whose id is non-empty and was not seen
      before the tick, no id is queued twice, and every queued id is among
      those the tick marks seen. */
  lemma {:induction false} NewItemsFresh(snap: seq<Item>, seen: set<string>)
    ensures var q := NewItems(snap, seen);
      && (forall k :: 0 <= k < |q| ==> q[k] in snap && Fresh(q[k], seen))
      && (forall a, b :: 0 <= a < b < |q| ==> q[a].id != q[b].id)
      && IdsOf(q) <= NonEmptyIds(snap)
  {
    if snap != [] {
      var prefix := snap[..|snap| - 1];
      var m := snap[|snap| - 1];
      NewItemsFresh(prefix, seen);
      var q := NewItems(snap, seen);
      var qp := NewItems(prefix, seen);
      if Fresh(m, seen + NonEmptyIds(prefix)) {
        assert q == qp + [m];
        forall k | 0 <= k < |q| ensures q[k] in snap {
          if k < |qp| {
            assert qp[k] in prefix;
          }
        }
        forall a, b | 0 <= a < b < |q| ensures q[a].id != q[b].id {
          if b == |qp| {
            assert q[a].id in IdsOf(qp);
          }
        }
      } else {
        assert q == qp;
        forall k | 0 <= k < |q| ensures q[k] in snap {
          assert qp[k] in prefix;
        }
      }
    }
  }

  lemma IdsOfSnoc(items: seq<Item>, m: Item)
    ensures IdsOf(items + [m]) == IdsOf(items) + {m.id}
  {
    var all := items + [m];
    forall x | x in IdsOf(all) ensures x in IdsOf(items) + {m.id} {
      var k :| 0 <= k < |all| && all[k].id == x;
      if k < |items| {
        assert items[k].id == x;
      }
    }
    forall x | x in IdsOf(items) ensures x in IdsOf(all) {
      var k :| 0 <= k < |items| && items[k].id == x;
      assert all[k].id == x;
    }
    assert all[|items|].id == m.id;
  }

  /** The ids queued by a tick are exactly the non-empty snapshot ids that
      were not seen before it, one item per id. */
  lemma {:induction false} NewItemsCount(snap: seq<Item>, seen: set<string>)
    ensures IdsOf(NewItems(snap, seen)) == NonEmptyIds(snap) - seen
    ensures |NewItems(snap, seen)| == |NonEmptyIds(snap) - seen|
  {
    if snap == [] {
      assert IdsOf([]) == {};
    } else {
      var prefix := snap[..|snap| - 1];
      var m := snap[|snap| - 1];
      NewItemsCount(prefix, seen);
      var qp := NewItems(prefix, seen);
      var before := NonEmptyIds(prefix) - seen;
      if Fresh(m, seen + NonEmptyIds(prefix)) {
        assert NewItems(snap, seen) == qp + [m];
        IdsOfSnoc(qp, m);
        assert NonEmptyIds(snap) - seen == before + {m.id};
        assert m.id !in before;
      } else {
        assert NewItems(snap, seen) == qp;
        assert NonEmptyIds(snap) - seen == before;
      }
    }
  }

  /** A tick queues nothing exactly when every non-empty id of the snapshot
      is already seen. */
  lemma NothingNewIff(snap: seq<Item>, seen: set<string>)
    ensures NewItems(snap, seen) == [] <==> NonEmptyIds(snap) <= seen
  {
    NewItemsCount(snap, seen);
    if NonEmptyIds(snap) <= seen {
      assert NonEmptyIds(snap) - seen == {};
    } else {
      var x :| x in NonEmptyIds(snap) && x !in seen;
      assert x in NonEmptyIds(snap) - seen;
    }
  }

  /** A second tick on the same snapshot, after the first one marked its ids
      seen, queues nothing. */
  lemma TickIdempotent(snap: seq<Item>, seen: set<string>)
    ensures NewItems(snap, seen + NonEmptyIds(snap)) == []
  {
    NothingNewIff(snap, seen + NonEmptyIds(snap));
  }

  /** The list in reverse order. */
  function Reversed<T>(s: seq<T>): (r: seq<T>)
    ensures |r| == |s|
    ensures forall k :: 0 <= k < |s| ==> r[k] == s[|s| - 1 - k]
  {
    if s == [] then [] else [s[|s| - 1]] + Reversed(s[..|s| - 1])
  }

  /** When the feed lists items newest first (by any creation rank), the
      batch a tick sends, `reversed(to_notify)`, goes oldest first. */
  lemma ChronologicalDelivery(snap: seq<Item>, seen: set<string>, rank: Item -> int)
    requires forall i, j :: 0 <= i < j < |snap| ==> rank(snap[i]) >= rank(snap[j])
    ensures var batch := Reversed(NewItems(snap, seen));
      forall a, b :: 0 <= a < b < |batch| ==> rank(batch[a]) <= rank(batch[b])
  {
    NewIndicesPick(snap, seen);
    var q := NewItems(snap, seen);
    var idx := NewIndices(snap, seen);
    var batch := Reversed(q);
    forall a, b | 0 <= a < b < |batch| ensures rank(batch[a]) <= rank(batch[b]) {
      var ka, kb := |q| - 1 - a, |q| - 1 - b;
      assert batch[a] == snap[idx[ka]] && batch[b] == snap[idx[kb]];
      assert idx[kb] < idx[ka];
    }
  }

  /** A feed `[newest, mid, oldest]` with only `newest` already seen is
      delivered as `[oldest, mid]`. */
  lemma OrderingExample(newest: Item, mid: Item, oldest: Item)
    requires newest.id != "" && mid.id != "" && oldest.id != ""
    requires newest.id != mid.id && newest.id != oldest.id && mid.id != oldest.id
    ensures Reversed(NewItems([newest, mid, oldest], {newest.id})) == [oldest, mid]
  {
    var snap := [newest, mid, oldest];
    assert snap[..2] == [newest, mid] && [newest, mid][..1] == [newest] && [newest][..0] == [];
    assert NonEmptyIds([newest]) == {newest.id};
    assert NonEmptyIds([newest, mid]) == {newest.id, mid.id};
    assert NewItems([newest], {newest.id}) == [];
    assert NewItems([newest, mid], {newest.id}) == [mid];
    assert NewItems(snap, {newest.id}) == [mid, oldest];
  }

  lemma NonEmptyIdsCons(x: Item, snap: seq<Item>)
    ensures NonEmptyIds([x] + snap) == NonEmptyIds(snap) + (if x.id != "" then {x.id} else {})
  {
    var all := [x] + snap;
    forall y | y in NonEmptyIds(all) ensures y in NonEmptyIds(snap) + (if x.id != "" then {x.id} else {}) {
      var i := NonEmptyIdsOnly(all, y);
      if i > 0 {
        assert snap[i - 1] == all[i];
        NonEmptyIdsHas(snap, i - 1);
      }
    }
    forall y | y in NonEmptyIds(snap) ensures y in NonEmptyIds(all) {
      var i := NonEmptyIdsOnly(snap, y);
      assert all[i + 1] == snap[i];
      NonEmptyIdsHas(all, i + 1);
    }
    if x.id != "" {
      NonEmptyIdsHas(all, 0);
    }
  }

  /** After a silent bootstrap on a snapshot, a later snapshot that adds one
      market with a new id on top queues exactly that market. */
  lemma BootstrapThenOneNew(snap: seq<Item>, x: Item, seen: set<string>)
    requires Fresh(x, seen + NonEmptyIds(snap))
    ensures NewItems([x] + snap, seen + NonEmptyIds(snap)) == [x]
  {
    var base := seen + NonEmptyIds(snap);
    var all := [x] + snap;
    var q := NewItems(all, base);
    NonEmptyIdsCons(x, snap);
    NewItemsCount(all, base);
    assert NonEmptyIds(all) - base == {x.id};
    NewItemsFresh(all, base);
    assert |q| == 1;
    var i :| 0 <= i < |all| && all[i] == q[0];
    if i > 0 {
      assert snap[i - 1] == q[0];
      NonEmptyIdsHas(snap, i - 1);
    }
  }

  /** `new_ids` of the start-up pass: the non-empty ids not in the loaded
      set, in feed order, repeated when the snapshot repeats them. */
  function FreshIds(snap: seq<Item>, seen: set<string>): seq<string> {
    if snap == [] then []
    else
      var m := snap[|snap| - 1];
      FreshIds(snap[..|snap| - 1], seen) + (if Fresh(m, seen) then [m.id] else [])
  }

  /** The items the announce-on-start pass sends, in feed order: those
      whose id is in `new_ids`. */
  function StartItems(snap: seq<Item>, seen: set<string>): seq<Item> {
    if snap == [] then []
    else
      var m := snap[|snap| - 1];
      StartItems(snap[..|snap| - 1], seen) + (if Fresh(m, seen) then [m] else [])
  }

  /** The start-up pass sends one message per entry of `new_ids`, to the
      item carrying that id, and `seen.update(new_ids)` adds exactly the
      snapshot's non-empty ids. */
  lemma {:induction false} StartItemsSpec(snap: seq<Item>, seen: set<string>)
    ensures |StartItems(snap, seen)| == |FreshIds(snap, seen)|
    ensures forall k :: 0 <= k < |FreshIds(snap, seen)| ==> StartItems(snap, seen)[k].id == FreshIds(snap, seen)[k]
    ensures forall x :: x in FreshIds(snap, seen) <==> x in NonEmptyIds(snap) && x !in seen
    ensures seen + (set x | x in FreshIds(snap, seen)) == seen + NonEmptyIds(snap)
  {
    if snap != [] {
      StartItemsSpec(snap[..|snap| - 1], seen);
    }
  }

  /** The check `mid in new_ids` of the announce loop holds exactly for the
      items that are fresh against the loaded set. */
  lemma NewIdsMember(snap: seq<Item>, seen: set<string>, i: nat)
    requires i < |snap|
    ensures snap[i].id in FreshIds(snap, seen) <==> Fresh(snap[i], seen)
  {
    StartItemsSpec(snap, seen);
    NonEmptyIdsNotEmpty(snap);
    if snap[i].id != "" {
      NonEmptyIdsHas(snap, i);
    }
  }

  /** With the feed's ids distinct, the start-up pass sends the same items a
      tick would queue, but in feed order rather than reversed. */
  lemma {:induction false} StartItemsDistinct(snap: seq<Item>, seen: set<string>)
    requires forall i, j :: 0 <= i < j < |snap| ==> snap[i].id != snap[j].id
    ensures StartItems(snap, seen) == NewItems(snap, seen)
  {
    if snap != [] {
      var prefix := snap[..|snap| - 1];
      var m := snap[|snap| - 1];
      forall i, j | 0 <= i < j < |prefix| ensures prefix[i].id != prefix[j].id {
        assert prefix[i] == snap[i] && prefix[j] == snap[j];
      }
      StartItemsDistinct(prefix, seen);
      if m.id in NonEmptyIds(prefix) {
        var j := NonEmptyIdsOnly(prefix, m.id);
        assert false;
      }
    }
  }

  /** A repeated id in the snapshot is announced twice at start-up, while a
      tick queues it once. */
  lemma DuplicateAtStart(a: Item, b: Item)
    requires a.id == b.id == "7"
    ensures |StartItems([a, b], {})| == 2
    ensures NewItems([a, b], {}) == [a]
  {
    assert [a, b][..1] == [a];
    assert [a][..0] == [];
    assert NonEmptyIds([a]) == {"7"};
    assert NewItems([a], {}) == [a];
    assert StartItems([a], {}) == [a];
  }

  /** The seen set after one tick: unchanged on a failed fetch. */
  function SeenAfter(fetched: Option<seq<Item>>, seen: set<string>): set<string> {
    match fetched
    case None => seen
    case Some(snap) => seen + NonEmptyIds(snap)
  }

  /** What one tick queues: nothing on a failed fetch. */
  function TickBatch(fetched: Option<seq<Item>>, seen: set<string>): seq<Item> {
    match fetched
    case None => []
    case Some(snap) => NewItems(snap, seen)
  }

  /** One tick queues each id at most once, only ids unseen before it, and
      all of them are seen after it. */
  lemma TickBatchFacts(fetched: Option<seq<Item>>, seen: set<string>)
    ensures var q := TickBatch(fetched, seen);
      && (forall k :: 0 <= k < |q| ==> q[k].id !in seen && q[k].id in SeenAfter(fetched, seen))
      && (forall a, b :: 0 <= a < b < |q| ==> q[a].id != q[b].id)
  {
    if fetched.Some? {
      var q := TickBatch(fetched, seen);
      NewItemsFresh(fetched.value, seen);
      forall k | 0 <= k < |q| ensures q[k].id in SeenAfter(fetched, seen) {
        assert q[k].id in IdsOf(q);
      }
    }
  }

  /** Everything queued by a run of ticks, tick after tick. */
  function QueuedOverRun(fetches: seq<Option<seq<Item>>>, seen: set<string>): seq<Item>
    decreases |fetches|
  {
    if fetches == [] then []
    else TickBatch(fetches[0], seen) + QueuedOverRun(fetches[1..], SeenAfter(fetches[0], seen))
  }

  /** Over any run of ticks no id is queued twice and no id seen at the start
      is queued at all: without a reset of the stored set, nobody is
      notified twice about one market. */
  lemma {:induction false} NoRepeatAcrossTicks(fetches: seq<Option<seq<Item>>>, seen: set<string>)
    ensures forall k :: 0 <= k < |QueuedOverRun(fetches, seen)| ==> QueuedOverRun(fetches, seen)[k].id !in seen
    ensures forall a, b :: 0 <= a < b < |QueuedOverRun(fetches, seen)| ==>
      QueuedOverRun(fetches, seen)[a].id != QueuedOverRun(fetches, seen)[b].id
    decreases |fetches|
  {
    if fetches != [] {
      var after := SeenAfter(fetches[0], seen);
      NoRepeatAcrossTicks(fetches[1..], after);
      TickBatchFacts(fetches[0], seen);
      var first := TickBatch(fetches[0], seen);
      var rest := QueuedOverRun(fetches[1..], after);
      var q := first + rest;
      assert forall k :: 0 <= k < |rest| ==> rest[k].id !in after;
      assert seen <= after;
      forall a, b | 0 <= a < b < |q| ensures q[a].id != q[b].id {
        if b >= |first| {
          assert q[b] == rest[b - |first|] && rest[b - |first|].id !in after;
          if a < |first| {
            assert q[a] == first[a] && first[a].id in after;
          } else {
            assert q[a] == rest[a - |first|];
          }
        } else {
          assert q[a] == first[a] && q[b] == first[b];
        }
      }
      forall k | 0 <= k < |q| ensures q[k].id !in seen {
        if k >= |first| {
          assert q[k] == rest[k - |first|] && rest[k - |first|].id !in after;
        } else {
          assert q[k] == first[k];
        }
      }
    }
  }
}
