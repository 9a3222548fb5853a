/**
 * The loops of session.ts that work on the two stores in place: the garbage-collecting capacity
 * transaction, the reverse-index teardown sweep and the forward barrier listing. Each is proved
 * against the function the step system of DraftStore uses.
 */
module DraftStorageLoops {
  import opened Foundations
  import opened ReceiptFence
  import opened AttendanceDrafts
  import opened DraftStore
  import opened DraftBarriers

  /** The IndexedDB object store of drafts, keyed by draft key. */
  class ObjectStore {
    var rows: Rows

    constructor ()
      ensures rows == map[]
    {
      rows := map[];
    }

    /** The collection pass: deletes collectable rows and gathers the keys that take a pending slot. */
    method CollectGarbage(b: Browser, now: int) returns (validKeys: set<string>)
      modifies this
      ensures rows == Surviving(b, now, old(rows))
      ensures validKeys == PendingKeys(rows)
    {
      hide Invalid, Expired, IsTerminal, IsProtected;
      var stored := rows;
      validKeys := {};
      var todo := stored.Keys;
      while todo != {}
        invariant todo <= stored.Keys
        invariant forall k :: k in rows <==> k in stored && (k in todo || !Collectable(b, now, k, stored[k]))
        invariant forall k :: k in rows ==> rows[k] == stored[k]
        invariant forall k :: k in validKeys <==>
          k in stored && k !in todo && !Collectable(b, now, k, stored[k]) && !IsTerminal(stored[k])
      {
        var next :| next in todo;
        todo := todo - {next};
        if IsTerminal(stored[next]) {
          continue;
        }
        if Invalid(next, stored[next]) || Expired(b, now, stored[next]) {
          if IsProtected(stored[next]) {
            validKeys := validKeys + {next};
          } else {
            rows := rows - {next};
          }
        } else {
          validKeys := validKeys + {next};
        }
      }
    }

    method WriteWithinCapacity(b: Browser, now: int, key: string, draft: Draft, outcome: Option<Outcome>)
      returns (result: WriteOutcome)
      modifies this
      ensures (rows, result) == WriteRow(b, now, old(rows), key, draft, outcome)
    {
      hide DecideWrite, Surviving, PendingKeys;
      var decision := DecideWrite(RowReceipt(rows, key), ReceiptOf(draft), outcome);
      if decision.Refused? {
        return FenceRefused(decision.reason);
      }
      var validKeys := CollectGarbage(b, now);
      if !CanStorePending(validKeys, key, MAX_RECORDS) {
        return CapacityExceeded;
      }
      rows := rows[key := draft];
      return Written;
    }
  }

  /** localStorage: an ordered list of keys with their values. */
  class LocalStorage {
    var keys: seq<string>
    var entries: Local

    ghost predicate Valid()
      reads this
    {
      Enumerates(keys, entries)
    }

    method RemoveAt(index: nat)
      requires Valid() && index < |keys|
      modifies this
      ensures Valid()
      ensures keys == old(keys)[..index] + old(keys)[index + 1..]
      ensures entries == old(entries) - {old(keys)[index]}
    {
      var key := keys[index];
      entries := entries - {key};
      keys := keys[..index] + keys[index + 1..];
      forall k ensures k in entries <==> k in keys {
        assert old(keys) == old(keys)[..index] + [key] + old(keys)[index + 1..];
      }
    }

    /** Teardown: removes every draft and barrier entry, walking the indices downwards. */
    method SweepDrafts()
      requires Valid()
      modifies this
      ensures Valid() && entries == Sweep(old(entries))
    {
      var index := |keys|;
      while index > 0
        invariant 0 <= index <= |keys|
        invariant Valid()
        invariant forall k :: k in entries ==> k in old(entries) && entries[k] == old(entries)[k]
        invariant forall k :: k in old(entries) && !Swept(k) ==> k in entries
        invariant forall i :: index <= i < |keys| ==> !Swept(keys[i])
      {
        index := index - 1;
        if Swept(keys[index]) {
          RemoveAt(index);
        }
      }
      forall k | k in entries ensures !Swept(k) {
        assert k in keys;
      }
    }

    /** Lists the standing barriers, discarding unreadable ones on the way, with an ascending index. */
    method ListBarriers() returns (found: Rows)
      requires Valid()
      modifies this
      ensures Valid()
      ensures (entries, found) == ScanBarriers(old(keys), old(entries), 0)
    {
      hide ScannedBarriers, ScanBarriers, Enumerates, BarrierOf, Discardable;
      found := map[];
      var index := 0;
      ghost var (finalEntries, total) := ScanBarriers(keys, entries, 0);
      ScanAsPair(keys, entries, 0);
      while index < |keys|
        invariant Valid() && index <= |keys| + 1
        invariant index <= |keys| ==>
          ScanBarriers(keys, entries, index).0 == finalEntries && found + ScannedBarriers(keys, entries, index) == total
        invariant index > |keys| ==> entries == finalEntries && found == total
        decreases |keys| - index
      {
        if BARRIER_PREFIX < keys[index] {
          var key := keys[index][|BARRIER_PREFIX|..];
          assert BarrierKey(key) == keys[index];
          ScanVisits(keys, entries, index, key);
          if Discardable(entries, key) {
            RemoveAt(index);
          } else {
            var barrier := BarrierOf(entries, key);
            if barrier.Some? {
              if key in ScannedBarriers(keys, entries, index + 1) {
                ScanIsSound(keys, entries, index + 1, key);
              }
              found := found[key := barrier.value];
            }
          }
        } else {
          ScanPasses(keys, entries, index);
        }
        index := index + 1;
      }
      ScanEnds(keys, entries, index);
      assert found + map[] == found;
    }
  }

  lemma ScanAsPair(order: seq<string>, local: Local, index: nat)
    requires index <= |order|
    ensures ScanBarriers(order, local, index) ==
      (ScanBarriers(order, local, index).0, ScannedBarriers(order, local, index))
  {
  }

  lemma ScanEnds(order: seq<string>, local: Local, index: nat)
    ensures index == |order| ==>
      ScanBarriers(order, local, index) == (local, map[]) && ScannedBarriers(order, local, index) == map[]
  {
  }

  lemma ScanPasses(order: seq<string>, local: Local, index: nat)
    requires index < |order| && !(BARRIER_PREFIX < order[index])
    ensures ScanBarriers(order, local, index) == ScanBarriers(order, local, index + 1)
    ensures ScannedBarriers(order, local, index) == ScannedBarriers(order, local, index + 1)
  {
  }

  lemma ScanVisits(order: seq<string>, local: Local, index: nat, key: string)
    requires index < |order| && BARRIER_PREFIX < order[index] && key == order[index][|BARRIER_PREFIX|..]
    ensures !Discardable(local, key) ==>
      && ScanBarriers(order, local, index).0 == ScanBarriers(order, local, index + 1).0
      && ScannedBarriers(order, local, index) ==
         var rest := ScannedBarriers(order, local, index + 1);
         var barrier := BarrierOf(local, key);
         if barrier.Some? then rest[key := barrier.value] else rest
    ensures Discardable(local, key) ==>
      var shifted, after := order[..index] + order[index + 1..], local - {BarrierKey(key)};
      if index + 1 <= |shifted| then
        && ScanBarriers(order, local, index).0 == ScanBarriers(shifted, after, index + 1).0
        && ScannedBarriers(order, local, index) == ScannedBarriers(shifted, after, index + 1)
      else
        ScanBarriers(order, local, index).0 == after && ScannedBarriers(order, local, index) == map[]
  {
    hide IsBarrier, EmptyText;
  }
}
