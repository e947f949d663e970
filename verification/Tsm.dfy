/**
 The part of the transaction state machine (tsm.c) that the COV service relies on: a table of 255 entries
 hands out invoke IDs, and its entries are the transactions that module CovModel calls the TSM.
 */
module Tsm {
  import opened Octets
  import opened CovModel

  const MAX_TSM_TRANSACTIONS: nat := 255

  /** Invoke IDs count from 1 to 255 and start over. */
  function Next(id: u8): u8 {
    if id == 255 then 1 else id + 1
  }

  /** The ID k steps behind id. */
  function Behind(id: u8, k: nat): (r: u8)
    requires id != 0
    ensures r != 0
  {
    (id - 1 + k) % 255 + 1
  }

  function IndexOf(ids: seq<u8>, id: u8): nat {
    First(ids, (x: u8) => x == id)
  }

  /** A non-zero invoke ID stands in one entry only. */
  ghost predicate Distinct(ids: seq<u8>) {
    forall i, j :: 0 <= i < j < |ids| && ids[i] != 0 ==> ids[i] != ids[j]
  }

  /** The transactions in the table; an entry that waits for no confirmation has lapsed. */
  function Held(ids: seq<u8>, waiting: seq<bool>): map<u8, Transaction>
    requires |ids| == |waiting|
  {
    map id | id in ids && id != 0 :: if waiting[IndexOf(ids, id)] then Awaiting else Lapsed
  }

  lemma IndexFinds(ids: seq<u8>, id: u8)
    ensures IndexOf(ids, id) < |ids| <==> id in ids
    ensures id in ids ==> ids[IndexOf(ids, id)] == id
  {
    if id in ids {
      var k :| 0 <= k < |ids| && ids[k] == id;
      assert IndexOf(ids, id) <= k;
    }
  }

  /** What the entry at i says is what is held. */
  lemma EntryIsHeld(ids: seq<u8>, waiting: seq<bool>, i: nat)
    requires |ids| == |waiting| && Distinct(ids) && i < |ids| && ids[i] != 0
    ensures IndexOf(ids, ids[i]) == i
    ensures ids[i] in Held(ids, waiting) && Held(ids, waiting)[ids[i]] == if waiting[i] then Awaiting else Lapsed
  {
    var k := IndexOf(ids, ids[i]);
    assert k <= i && ids[k] == ids[i];
  }

  lemma HeldKeys(ids: seq<u8>, waiting: seq<bool>)
    requires |ids| == |waiting|
    ensures forall x :: x in Held(ids, waiting) <==> x in ids && x != 0
  {
  }

  /** Held again says m, once m knows every entry and nothing else. */
  lemma HeldIs(ids: seq<u8>, waiting: seq<bool>, m: map<u8, Transaction>)
    requires |ids| == |waiting| && Distinct(ids)
    requires forall i :: 0 <= i < |ids| && ids[i] != 0 ==>
               ids[i] in m && m[ids[i]] == if waiting[i] then Awaiting else Lapsed
    requires forall x :: x in m ==> x != 0 && x in ids
    ensures Held(ids, waiting) == m
  {
    forall x | x in Held(ids, waiting)
      ensures x in m && Held(ids, waiting)[x] == m[x]
    {
      IndexFinds(ids, x);
      EntryIsHeld(ids, waiting, IndexOf(ids, x));
    }
    assert Held(ids, waiting).Keys == m.Keys;
  }

  /** Writing one entry adds its transaction and takes away the one that stood there. */
  lemma HeldAfterWrite(ids: seq<u8>, waiting: seq<bool>, i: nat, id: u8, w: bool)
    requires |ids| == |waiting| && i < |ids| && Distinct(ids)
    requires id == 0 || id == ids[i] || id !in ids
    ensures Distinct(ids[i := id])
    ensures Held(ids[i := id], waiting[i := w]) ==
            var rest := Held(ids, waiting) - {ids[i]};
            if id == 0 then rest else rest[id := if w then Awaiting else Lapsed]
  {
    HeldKeys(ids, waiting);
    hide Held;
    hide IndexOf;
    var ids', waiting' := ids[i := id], waiting[i := w];
    var rest := Held(ids, waiting) - {ids[i]};
    var m := if id == 0 then rest else rest[id := if w then Awaiting else Lapsed];
    forall j | 0 <= j < |ids'| && ids'[j] != 0
      ensures ids'[j] in m && m[ids'[j]] == if waiting'[j] then Awaiting else Lapsed
    {
      if j != i {
        EntryStays(ids, waiting, i, id, j);
      }
    }
    forall x | x in m
      ensures x != 0 && x in ids'
    {
      if x == id {
        assert ids'[i] == x;
      } else {
        var j :| 0 <= j < |ids| && ids[j] == x;
        assert ids'[j] == x;
      }
    }
    DistinctAfterWrite(ids, i, id);
    hide Distinct;
    HeldIs(ids', waiting', m);
  }

  lemma DistinctAfterWrite(ids: seq<u8>, i: nat, id: u8)
    requires i < |ids| && Distinct(ids) && (id == 0 || id == ids[i] || id !in ids)
    ensures Distinct(ids[i := id])
  {
  }

  /** An entry elsewhere is not touched. */
  lemma EntryStays(ids: seq<u8>, waiting: seq<bool>, i: nat, id: u8, j: nat)
    requires |ids| == |waiting| && i < |ids| && j < |ids| && j != i && ids[j] != 0 && Distinct(ids)
    requires id == 0 || id == ids[i] || id !in ids
    ensures ids[j] != ids[i] && ids[j] != id
    ensures ids[j] in Held(ids, waiting) && Held(ids, waiting)[ids[j]] == if waiting[j] then Awaiting else Lapsed
  {
    EntryIsHeld(ids, waiting, j);
    hide Held;
    hide IndexOf;
  }

  lemma HeldNeverZero(ids: seq<u8>, waiting: seq<bool>)
    requires |ids| == |waiting|
    ensures Held(ids, waiting) - {0} == Held(ids, waiting)
  {
  }

  /** No ID from the start on is free before this one is. */
  ghost predicate FirstUnused(used: map<u8, Transaction>, start: u8, id: u8) {
    && start != 0 && id !in used
    && exists k :: 0 <= k < 255 && id == Behind(start, k) && forall j :: 0 <= j < k ==> Behind(start, j) in used
  }

  lemma BehindNext(id: u8, k: nat)
    requires id != 0
    ensures Behind(id, 0) == id
    ensures Next(Behind(id, k)) == Behind(id, k + 1)
  {
  }

  lemma BehindIsInjective(id: u8, j: nat, k: nat)
    requires id != 0 && j < k < 255
    ensures Behind(id, j) != Behind(id, k)
  {
  }

  /** Consecutive IDs that are all in use are fewer than the entries, if an entry is free. */
  lemma RunOfUsed(ids: seq<u8>, id: u8, k: nat)
    requires |ids| == MAX_TSM_TRANSACTIONS && 0 in ids && id != 0 && k <= 255
    requires forall j :: 0 <= j < k ==> Behind(id, j) in ids
    ensures k < 255
  {
    hide Behind;
    hide IndexOf;
    var place: map<nat, nat> := map j: nat | 0 <= j < k :: IndexOf(ids, Behind(id, j));
    forall x | x in place
      ensures place[x] < 255 && ids[place[x]] == Behind(id, x)
    {
      IndexFinds(ids, Behind(id, x));
    }
    forall x, y | x in place && y in place && place[x] == place[y]
      ensures x == y
    {
      if x < y {
        BehindIsInjective(id, x, y);
      } else if y < x {
        BehindIsInjective(id, y, x);
      }
    }
    FewerPlaces(place, ids);
    assert place.Keys == Below(k);
  }

  lemma SearchEnds(ids: seq<u8>, waiting: seq<bool>, start: u8, k: nat)
    requires |ids| == |waiting| && start != 0 && k < 255
    requires Behind(start, k) !in ids && forall j :: 0 <= j < k ==> Behind(start, j) in ids
    ensures FirstUnused(Held(ids, waiting), start, Behind(start, k))
  {
    HeldKeys(ids, waiting);
    hide Held;
    hide Behind;
  }

  lemma FewerPlaces(place: map<nat, nat>, ids: seq<u8>)
    requires |ids| == MAX_TSM_TRANSACTIONS && 0 in ids
    requires forall x :: x in place ==> place[x] < 255 && ids[place[x]] != 0
    requires forall x, y :: x in place && y in place && place[x] == place[y] ==> x == y
    ensures |place.Keys| < 255
  {
    Pigeonhole(place, 255);
    var free :| 0 <= free < |ids| && ids[free] == 0;
    assert free in Below(255) && free !in place.Values;
  }

  class Table {
    const ids: array<u8>
    const waiting: array<bool>
    var current: u8

    ghost predicate Valid()
      reads this, ids
    {
      && ids.Length == waiting.Length == MAX_TSM_TRANSACTIONS
      && current != 0 && Distinct(ids[..])
    }

    ghost function State(): map<u8, Transaction>
      requires Valid()
      reads this, ids, waiting
    {
      Held(ids[..], waiting[..])
    }

    constructor ()
      ensures Valid() && fresh(ids) && fresh(waiting) && State() == map[]
    {
      ids := new u8[MAX_TSM_TRANSACTIONS](_ => 0);
      waiting := new bool[MAX_TSM_TRANSACTIONS](_ => false);
      current := 1;
    }

    /** tsm_find_invokeID_index and, for 0, tsm_find_first_free_index. */
    method FindIndex(id: u8) returns (index: nat)
      requires Valid()
      ensures index == IndexOf(ids[..], id) <= MAX_TSM_TRANSACTIONS
      ensures index < MAX_TSM_TRANSACTIONS <==> id in ids[..]
    {
      index := 0;
      while index < MAX_TSM_TRANSACTIONS && ids[index] != id
        invariant index <= MAX_TSM_TRANSACTIONS && forall j :: 0 <= j < index ==> ids[j] != id
      {
        index := index + 1;
      }
      assert index < MAX_TSM_TRANSACTIONS ==> ids[..][index] == id;
      assert IndexOf(ids[..], id) < MAX_TSM_TRANSACTIONS ==> ids[IndexOf(ids[..], id)] == id;
    }

    /** tsm_transaction_available. */
    method TransactionAvailable() returns (available: bool)
      requires Valid()
      ensures available <==> 0 in ids[..]
    {
      var i := FindIndex(0);
      available := i < MAX_TSM_TRANSACTIONS;
    }

    /** One entry is written. */
    method Enter(index: nat, invokeId: u8, wait: bool)
      requires Valid() && index < MAX_TSM_TRANSACTIONS
      requires invokeId == 0 || invokeId == ids[index] || invokeId !in ids[..]
      modifies ids, waiting
      ensures Valid()
      ensures var rest := old(State()) - {old(ids[index])};
              State() == if invokeId == 0 then rest else rest[invokeId := if wait then Awaiting else Lapsed]
    {
      HeldAfterWrite(ids[..], waiting[..], index, invokeId, wait);
      ghost var before, beforeW := ids[..], waiting[..];
      ids[index] := invokeId;
      waiting[index] := wait;
      assert ids[..] == before[index := invokeId] && waiting[..] == beforeW[index := wait];
    }

    /**
     tsm_next_free_invokeID: whenever an entry is available, the search ends with an ID that is not in use,
     the first such ID from the current one on, and enters it; 0 is the answer exactly when none is.
     */
    method NextFreeInvokeId() returns (invokeId: u8)
      requires Valid()
      modifies this, ids, waiting
      ensures Valid()
      ensures invokeId != 0 <==> 0 in old(ids[..])
      ensures invokeId == 0 ==> State() == old(State()) && current == old(current)
      ensures invokeId != 0 ==> State() == old(State())[invokeId := Lapsed] && current == Next(invokeId)
      ensures invokeId != 0 ==> FirstUnused(old(State()), old(current), invokeId)
    {
      hide Held;
      hide IndexOf;
      hide Behind;
      hide FirstUnused;
      invokeId := 0;
      var available := TransactionAvailable();
      if available {
        ghost var k: nat := 0;
        BehindNext(current, 0);
        var index := FindIndex(current);
        while index != MAX_TSM_TRANSACTIONS
          invariant Valid() && k < 255 && current == Behind(old(current), k)
          invariant index != MAX_TSM_TRANSACTIONS <==> current in ids[..]
          invariant ids[..] == old(ids[..]) && waiting[..] == old(waiting[..])
          invariant forall j :: 0 <= j < k ==> Behind(old(current), j) in ids[..]
          decreases 255 - k
        {
          RunOfUsed(ids[..], old(current), k + 1);
          BehindNext(old(current), k);
          k := k + 1;
          current := Next(current);
          index := FindIndex(current);
        }
        index := FindIndex(0);
        IndexFinds(ids[..], 0);
        HeldNeverZero(ids[..], waiting[..]);
        invokeId := current;
        SearchEnds(ids[..], waiting[..], old(current), k);
        Enter(index, invokeId, false);
        current := Next(current);
      }
    }

    /** tsm_set_confirmed_unsegmented_transaction, as to the state of the entry. */
    method SetConfirmed(invokeId: u8)
      requires Valid()
      modifies ids, waiting
      ensures Valid()
      ensures State() == if invokeId in old(State()) then old(State())[invokeId := Awaiting] else old(State())
    {
      HeldKeys(ids[..], waiting[..]);
      hide Held;
      hide IndexOf;
      if invokeId != 0 {
        var index := FindIndex(invokeId);
        if index < MAX_TSM_TRANSACTIONS {
          IndexFinds(ids[..], invokeId);
          EntryIsHeld(ids[..], waiting[..], index);
          Enter(index, invokeId, true);
        }
      }
    }

    /** tsm_free_invoke_id. */
    method FreeInvokeId(invokeId: u8)
      requires Valid()
      modifies ids, waiting
      ensures Valid()
      ensures State() == old(State()) - {invokeId}
    {
      var index := FindIndex(invokeId);
      if index < MAX_TSM_TRANSACTIONS {
        IndexFinds(ids[..], invokeId);
        Enter(index, 0, false);
      }
    }

    /** tsm_invoke_id_free. */
    method InvokeIdFree(invokeId: u8) returns (status: bool)
      requires Valid() && invokeId != 0
      ensures status <==> invokeId !in State()
    {
      var index := FindIndex(invokeId);
      status := index == MAX_TSM_TRANSACTIONS;
    }

    /** tsm_invoke_id_failed. */
    method InvokeIdFailed(invokeId: u8) returns (status: bool)
      requires Valid() && invokeId != 0
      ensures status <==> invokeId in State() && State()[invokeId].Lapsed?
    {
      status := false;
      var index := FindIndex(invokeId);
      if index < MAX_TSM_TRANSACTIONS {
        status := !waiting[index];
      }
    }
  }
}
