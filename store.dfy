/** The record store of the tracker: the in-memory collection, the id
    counter and the copy kept in storage, with the operations that read and
    change them. */
module Store {
  import opened Wrappers
  import opened RecordIds
  import opened Records
  import Stats

  /** A record appended under an id nobody has is the one found by that id. */
  lemma {:induction false} FindAppended(records: seq<Record>, r: Record)
    requires r.id !in Ids(records)
    ensures Find(records + [r], r.id) == Some(r)
  {
    var all := records + [r];
    assert all[|records|] == r;
    forall j | 0 <= j < |records|
      ensures all[j].id != r.id
    {
      assert all[j] == records[j] && Ids(records)[j] == records[j].id;
    }
  }

  /** Replacing the first record with some id by one that keeps the id:
      the replacement is what that id now finds. */
  lemma {:induction false} FindReplaced(records: seq<Record>, k: nat, m: Record)
    requires FindIndex(records, m.id) == Some(k)
    ensures Find(records[k := m], m.id) == Some(m)
  {
    var all := records[k := m];
    assert all[k] == m;
    forall j | 0 <= j < k
      ensures all[j].id != m.id
    {
      assert all[j] == records[j];
    }
  }

  /** Replacing a record by one with the same id leaves the ids as they were. */
  lemma IdsReplaced(records: seq<Record>, k: nat, m: Record)
    requires k < |records| && records[k].id == m.id
    ensures Ids(records[k := m]) == Ids(records)
  {
    assert forall j :: 0 <= j < |records| ==> Ids(records[k := m])[j] == Ids(records)[j];
  }

  /** Appending the record the counter named, and moving the counter on,
      keeps the counter at or above the one a reload would compute. */
  lemma CounterAfterAppend(records: seq<Record>, nextId: nat, r: Record)
    requires nextId >= NextId(Ids(records)) && r.id == FormatId(nextId)
    ensures NextId(Ids(records + [r])) <= nextId + 1
  {
    var ids := Ids(records + [r]);
    NextIdIsAbove(Ids(records));
    forall i | 0 <= i < |ids| && SuffixValue(ids[i]).Some?
      ensures SuffixValue(ids[i]).value < nextId + 1
    {
      if i < |records| {
        assert ids[i] == Ids(records)[i];
      } else {
        SuffixOfFormatId(nextId);
      }
    }
    NextIdIsLeast(ids, nextId + 1);
  }

  /** Removing a record never raises the counter a reload would compute. */
  lemma CounterAfterRemove(records: seq<Record>, k: nat)
    requires k < |records|
    ensures NextId(Ids(records[..k] + records[k + 1..])) <= NextId(Ids(records))
  {
    var ids := Ids(records[..k] + records[k + 1..]);
    NextIdIsAbove(Ids(records));
    forall i | 0 <= i < |ids| && SuffixValue(ids[i]).Some?
      ensures SuffixValue(ids[i]).value < NextId(Ids(records))
    {
      if i < k {
        assert ids[i] == Ids(records)[i];
      } else {
        assert ids[i] == Ids(records)[i + 1];
      }
    }
    NextIdIsLeast(ids, NextId(Ids(records)));
  }

  /** What `addRecord` relies on: the record named by the counter is new,
      is found by its id once appended, and the counter stays ahead. */
  lemma AddedRecord(records: seq<Record>, nextId: nat, r: Record)
    requires nextId >= NextId(Ids(records)) && r.id == FormatId(nextId)
    ensures forall k :: 0 <= k < |records| ==> records[k].id != r.id
    ensures Find(records + [r], r.id) == Some(r)
    ensures NextId(Ids(records + [r])) <= nextId + 1
  {
    NextIdIsFresh(Ids(records), nextId);
    forall k | 0 <= k < |records|
      ensures records[k].id != r.id
    {
      assert Ids(records)[k] == records[k].id;
    }
    FindAppended(records, r);
    CounterAfterAppend(records, nextId, r);
  }

  class RecordStore {
    /** The collection, in insertion order. */
    var records: seq<Record>
    /** The number the next added record is given. */
    var nextId: nat
    /** What storage holds: the collection as last written. */
    var saved: seq<Legacy>

    /** The counter is never behind the one a reload would compute, so it
        is above every numbered id. */
    ghost predicate Valid()
      reads this
    {
      nextId >= NextId(Ids(records))
    }

    /** Start-up: the stored records are migrated, and the counter is set
        from their ids. The class keeps the corrected counter `NextId`, which
        passes over suffixes that are not numbers and never drops below 1;
        `Math.max(...) + 1` as the source writes it is `NextIdAsWritten`, and
        the two agree whenever every suffix is a non-negative number. */
    constructor Load(stored: seq<Legacy>)
      ensures Valid()
      ensures records == MigrateAll(stored) && saved == stored
      ensures nextId == NextId(Ids(records))
      ensures (forall i :: 0 <= i < |records| ==> SuffixValue(Ids(records)[i]).Some? && SuffixValue(Ids(records)[i]).value >= 0) ==>
        NextIdAsWritten(Ids(records)) == Num(nextId)
    {
      var migrated := MigrateAll(stored);
      records := migrated;
      saved := stored;
      nextId := NextId(Ids(migrated));
      var ids := Ids(migrated);
      if forall i :: 0 <= i < |ids| ==> SuffixValue(ids[i]).Some? && SuffixValue(ids[i]).value >= 0 {
        NextIdAsWrittenAgrees(ids);
      }
    }

    /** `saveData(records)`: storage then holds every field of every
        record, so loading it gives back the collection. */
    method Save()
      modifies this`saved
      ensures saved == StoredAll(records)
      ensures MigrateAll(saved) == records
    {
      MigrateStoredRoundTrip(records);
      saved := StoredAll(records);
    }

    /** `getRecords`: a copy of the collection. */
    method GetRecords() returns (rs: seq<Record>)
      ensures rs == records
    {
      rs := records;
    }

    /** `getRecordById`: the first record with that id, if any. */
    method GetRecordById(id: string) returns (r: Option<Record>)
      ensures r == Find(records, id)
      ensures r.None? <==> id !in Ids(records)
      ensures r.Some? ==> r.value in records && r.value.id == id
    {
      r := Find(records, id);
    }

    /** `addRecord`: the draft gets the counter's id, no progress and the
        current time; the counter moves on and the collection is saved. */
    method AddRecord(d: Draft, now: Timestamp) returns (r: Record)
      requires Valid()
      modifies this
      ensures Valid()
      ensures r == NewRecord(d, old(nextId), now) && SuffixValue(r.id) == Some(old(nextId))
      ensures forall k :: 0 <= k < |old(records)| ==> old(records)[k].id != r.id
      ensures records == old(records) + [r] && nextId == old(nextId) + 1
      ensures saved == StoredAll(records)
      ensures Find(records, r.id) == Some(r)
    {
      r := NewRecord(d, nextId, now);
      SuffixOfFormatId(nextId);
      AddedRecord(records, nextId, r);
      records, nextId := records + [r], nextId + 1;
      assert Valid();
      Save();
    }

    /** `updateRecord`: the first record with that id gets the updates merged
        in and a new `updatedAt`; nothing happens when no record has it. */
    method UpdateRecord(id: string, u: Updates, now: Timestamp) returns (r: Option<Record>)
      requires Valid()
      modifies this
      ensures Valid() && nextId == old(nextId)
      ensures old(FindIndex(records, id)).None? ==>
        r.None? && records == old(records) && saved == old(saved)
      ensures old(FindIndex(records, id)).Some? ==>
        var k := old(FindIndex(records, id)).value;
        && r == Some(ApplyUpdates(old(records)[k], u, now))
        && records == old(records)[k := r.value]
        && saved == StoredAll(records)
      ensures r.Some? ==> Find(records, id) == r
    {
      var index := FindIndex(records, id);
      if index.None? {
        r := None;
      } else {
        var k := index.value;
        var m := ApplyUpdates(records[k], u, now);
        FindReplaced(records, k, m);
        IdsReplaced(records, k, m);
        records := records[k := m];
        assert Valid();
        Save();
        r := Some(m);
      }
    }

    /** `deleteRecord`: the first record with that id is removed, the others
        keep their order; `false` and no change when no record has it. */
    method DeleteRecord(id: string) returns (deleted: bool)
      requires Valid()
      modifies this
      ensures Valid() && nextId == old(nextId)
      ensures deleted <==> exists k :: 0 <= k < |old(records)| && old(records)[k].id == id
      ensures !deleted ==> records == old(records) && saved == old(saved)
      ensures deleted ==>
        var k := old(FindIndex(records, id)).value;
        && records == old(records)[..k] + old(records)[k + 1..]
        && saved == StoredAll(records)
    {
      var index := FindIndex(records, id);
      if index.None? {
        deleted := false;
      } else {
        var k := index.value;
        CounterAfterRemove(records, k);
        records := records[..k] + records[k + 1..];
        Save();
        deleted := true;
      }
    }

    /** `importRecords`: the collection is replaced by the imported one, each
        record given an id by position, timestamps and progress fields where
        missing; the counter is recomputed as at start-up, with the corrected
        `NextId`, which agrees with the source's `NextIdAsWritten` whenever
        every suffix is a non-negative number. */
    method ImportRecords(data: seq<Incoming>, now: Timestamp)
      requires Valid()
      modifies this
      ensures Valid()
      ensures records == Imported(data, now)
      ensures nextId == NextId(Ids(records))
      ensures (forall i :: 0 <= i < |records| ==> SuffixValue(Ids(records)[i]).Some? && SuffixValue(Ids(records)[i]).value >= 0) ==>
        NextIdAsWritten(Ids(records)) == Num(nextId)
      ensures saved == StoredAll(records)
    {
      records := Imported(data, now);
      nextId := NextId(Ids(records));
      if forall i :: 0 <= i < |records| ==> SuffixValue(Ids(records)[i]).Some? && SuffixValue(Ids(records)[i]).value >= 0 {
        NextIdAsWrittenAgrees(Ids(records));
      }
      Save();
    }

    /** `getStats` over the current collection. */
    method GetStats() returns (s: Stats.Stats)
      ensures s == Stats.GetStats(records)
      ensures s.total == |records| && s.lastInteracted == Stats.LastInteracted(records)
    {
      s := Stats.GetStats(records);
    }

    /** `logReadingProgress`: `None` when no record has the id or when the new
        count would pass a known page count; otherwise the record found is
        replaced as `LogProgress` says and returned. */
    method LogReadingProgress(id: string, delta: int, note: string, now: Timestamp) returns (r: Option<Record>)
      requires Valid()
      modifies this
      ensures Valid() && nextId == old(nextId)
      ensures old(FindIndex(records, id)).None? ==>
        r.None? && records == old(records) && saved == old(saved)
      ensures old(FindIndex(records, id)).Some? ==>
        var k := old(FindIndex(records, id)).value;
        r == LogProgress(old(records)[k], delta, note, now)
      ensures r.None? ==> records == old(records) && saved == old(saved)
      ensures r.Some? ==>
        var k := old(FindIndex(records, id)).value;
        records == old(records)[k := r.value] && saved == StoredAll(records)
    {
      var record := GetRecordById(id);
      if record.None? {
        return None;
      }
      var found := record.value;
      if found.pages.Some? && found.pagesRead + delta > found.pages.value {
        return None;
      }
      r := UpdateRecord(id, ProgressUpdates(found, delta, note, now), now);
    }
  }
}
