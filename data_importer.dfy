// Importing one device's parsed records into the JSON temperature database:
// readings from before 2020 are dropped, a record is stored only if its
// content hash is new for the device, and the device's records are kept in
// timestamp order with their count alongside.

module DataImporter {
  import opened Text
  import Sorting
  import TP = TemperatureProcessor

  /** 2020-01-01 00:00:00: earlier readings are not imported. */
  const MinImportTimestamp: int := 1577836800

  /**
   * What `_create_record_hash` digests: device, timestamp, temperature,
   * humidity and battery. The digest is modelled by the content itself.
   */
  datatype RecordHash = RecordHash(device: string, timestamp: int, temperature: real, humidity: real, batteryMv: int)

  /** A stored record, with its hash. */
  datatype StoredRecord = StoredRecord(timestamp: int, temperature: real, humidity: real, batteryMv: int, hash: RecordHash)

  /** A device's database entry; `totalRecords` and `lastUpdated` appear after its first import. */
  datatype DeviceEntry = DeviceEntry(
    deviceName: string, firstSeen: int, records: seq<StoredRecord>, recordHashes: set<RecordHash>,
    totalRecords: Option<nat>, lastUpdated: Option<int>)

  function HashKey(r: StoredRecord): RecordHash { r.hash }

  function StoredTimestamp(r: StoredRecord): int { r.timestamp }

  function Stored(device: string, r: TP.Record): (s: StoredRecord)
    ensures s.hash.device == device && s.hash.timestamp == s.timestamp == r.timestamp
  {
    StoredRecord(r.timestamp, r.temperature, r.humidity, r.batteryMv,
                 RecordHash(device, r.timestamp, r.temperature, r.humidity, r.batteryMv))
  }

  /** The records old enough to be skipped. */
  function Skipped(rs: seq<TP.Record>): nat
  {
    if |rs| == 0 then 0
    else Skipped(rs[..|rs| - 1]) + if rs[|rs| - 1].timestamp < MinImportTimestamp then 1 else 0
  }

  /** The stored form of every record from 2020 on, in input order. */
  function Candidates(device: string, rs: seq<TP.Record>): seq<StoredRecord>
  {
    if |rs| == 0 then []
    else
      var last := rs[|rs| - 1];
      Candidates(device, rs[..|rs| - 1]) + if last.timestamp < MinImportTimestamp then [] else [Stored(device, last)]
  }

  /** One more record is a candidate unless it is from before 2020, when it is skipped. */
  lemma CandidatesStep(device: string, rs: seq<TP.Record>, k: nat)
    requires k < |rs|
    ensures Candidates(device, rs[..k + 1]) ==
      Candidates(device, rs[..k]) + if rs[k].timestamp < MinImportTimestamp then [] else [Stored(device, rs[k])]
    ensures Skipped(rs[..k + 1]) == Skipped(rs[..k]) + if rs[k].timestamp < MinImportTimestamp then 1 else 0
  {
    assert rs[..k + 1][..k] == rs[..k];
  }

  /** The records the import appends: candidates whose hash is new, first occurrence only. */
  function Added(device: string, e: DeviceEntry, rs: seq<TP.Record>): seq<StoredRecord>
  {
    Sorting.KeepFirst(Candidates(device, rs), HashKey, e.recordHashes)
  }

  /** The entry a device starts from: its stored entry, or a fresh empty one first seen `now`. */
  function EntryFor(devices: map<string, DeviceEntry>, name: string, now: int): (e: DeviceEntry)
    ensures e.deviceName == name || name in devices
  {
    if name in devices then devices[name] else DeviceEntry(name, now, [], {}, None, None)
  }

  /** The entry after an import at time `now`. */
  function Imported(device: string, e: DeviceEntry, rs: seq<TP.Record>, now: int): DeviceEntry
  {
    var all := e.records + Added(device, e, rs);
    e.(records := Sorting.SortBy(all, StoredTimestamp),
       recordHashes := e.recordHashes + Sorting.KeysOf(Candidates(device, rs), HashKey),
       totalRecords := Some(|all|),
       lastUpdated := Some(now))
  }

  /** The stored hashes are those of the stored records, no two records sharing one. */
  predicate Consistent(e: DeviceEntry)
  {
    e.recordHashes == Sorting.KeysOf(e.records, HashKey) && Sorting.UniqueKeys(e.records, HashKey)
  }

  /** Every input record is imported, a duplicate or skipped as too old. */
  lemma {:induction false} CandidatesCount(device: string, rs: seq<TP.Record>)
    ensures |Candidates(device, rs)| + Skipped(rs) == |rs|
    ensures forall c | c in Candidates(device, rs) :: c.timestamp >= MinImportTimestamp && c.hash.device == device
  {
    if |rs| > 0 {
      CandidatesCount(device, rs[..|rs| - 1]);
    }
  }

  /** An import keeps every stored record and adds only new-hash records from 2020 on. */
  lemma ImportedRecords(device: string, e: DeviceEntry, rs: seq<TP.Record>, now: int)
    ensures multiset(e.records) <= multiset(Imported(device, e, rs, now).records)
    ensures forall r | r in Imported(device, e, rs, now).records && r !in e.records ::
      r.timestamp >= MinImportTimestamp && r.hash !in e.recordHashes && r.hash.device == device
    ensures Sorting.SortedBy(Imported(device, e, rs, now).records, StoredTimestamp)
    ensures Imported(device, e, rs, now).totalRecords == Some(|Imported(device, e, rs, now).records|)
  {
    var added := Added(device, e, rs);
    var after := Imported(device, e, rs, now).records;
    Sorting.KeepFirstProperties(Candidates(device, rs), HashKey, e.recordHashes);
    CandidatesCount(device, rs);
    forall r | r in after && r !in e.records
      ensures r.timestamp >= MinImportTimestamp && r.hash !in e.recordHashes && r.hash.device == device
    {
      assert r in multiset(after);
      assert r in e.records + added;
    }
  }

  /** An import keeps an entry consistent: the database never stores a hash twice. */
  lemma ImportedConsistent(device: string, e: DeviceEntry, rs: seq<TP.Record>, now: int)
    requires Consistent(e)
    ensures Consistent(Imported(device, e, rs, now))
  {
    var cands := Candidates(device, rs);
    var added := Added(device, e, rs);
    var all := e.records + added;
    Sorting.KeepFirstKeys(cands, HashKey, e.recordHashes);
    Sorting.KeepFirstAfter(e.records, Candidates(device, rs), HashKey, e.recordHashes);
    Sorting.SortByUnique(all, StoredTimestamp, HashKey);
    Sorting.SortByMembers(all, StoredTimestamp);
    assert Sorting.KeysOf(Sorting.SortBy(all, StoredTimestamp), HashKey) == Sorting.KeysOf(all, HashKey);
    Sorting.KeysOfConcat(e.records, added, HashKey);
  }

  /** Importing the same records again adds nothing. */
  lemma ImportTwice(device: string, e: DeviceEntry, rs: seq<TP.Record>, now: int)
    ensures Added(device, Imported(device, e, rs, now), rs) == []
  {
    var after := Imported(device, e, rs, now);
    var cands := Candidates(device, rs);
    Sorting.KeepFirstSeen(cands, HashKey, after.recordHashes);
  }

  /** The database of `TemperatureDataImporter`, reduced to its device table. */
  class Importer {
    var devices: map<string, DeviceEntry>

    constructor(devices: map<string, DeviceEntry>)
      ensures this.devices == devices
    {
      this.devices := devices;
    }

    /**
     * `_process_device_data` at time `now`: no records change nothing;
     * otherwise the device's entry (created when missing) is the imported
     * one. Returns the numbers of new and duplicate records.
     */
    method ProcessDeviceData(deviceName: string, records: seq<TP.Record>, now: int) returns (newRecords: nat, duplicates: nat)
      modifies this
      ensures |records| == 0 ==> newRecords == 0 && duplicates == 0 && devices == old(devices)
      ensures |records| > 0 ==>
        var e := EntryFor(old(devices), deviceName, now);
        devices == old(devices)[deviceName := Imported(deviceName, e, records, now)]
        && newRecords == |Added(deviceName, e, records)|
        && newRecords + duplicates + Skipped(records) == |records|
    {
      if |records| == 0 {
        return 0, 0;
      }
      var table := devices;
      if deviceName !in table {
        table := table[deviceName := DeviceEntry(deviceName, now, [], {}, None, None)];
      }
      var entry := table[deviceName];
      assert entry == EntryFor(devices, deviceName, now);
      var stored, existing;
      stored, existing, newRecords, duplicates := ImportLoop(deviceName, entry, records);
      var updated := entry.(records := Sorting.SortBy(stored, StoredTimestamp), recordHashes := existing,
                            totalRecords := Some(|stored|), lastUpdated := Some(now));
      assert updated == Imported(deviceName, entry, records, now);
      devices := table[deviceName := updated];
    }
  }

  /** The record loop's variables: the stored records, the hash set and the three counters. */
  datatype ImportState = ImportState(stored: seq<StoredRecord>, existing: set<RecordHash>,
                                     added: nat, duplicates: nat, skipped: nat)

  /** One iteration of the record loop. */
  function ImportRecord(device: string, st: ImportState, r: TP.Record): ImportState
  {
    if r.timestamp < MinImportTimestamp then st.(skipped := st.skipped + 1)
    else
      var hashed := Stored(device, r);
      if hashed.hash !in st.existing then
        st.(stored := st.stored + [hashed], existing := st.existing + {hashed.hash}, added := st.added + 1)
      else st.(duplicates := st.duplicates + 1)
  }

  /** The loop's variables after the first `k` input records. */
  function ImportUpTo(device: string, entry: DeviceEntry, rs: seq<TP.Record>, k: nat): ImportState
    requires k <= |rs|
  {
    if k == 0 then ImportState(entry.records, entry.recordHashes, 0, 0, 0)
    else ImportRecord(device, ImportUpTo(device, entry, rs, k - 1), rs[k - 1])
  }

  /**
   * The loop's variables after `k` records: exactly the new-hash candidates
   * appended, first occurrence only, every candidate's hash collected, and
   * every record counted once.
   */
  predicate ImportedSoFar(device: string, entry: DeviceEntry, rs: seq<TP.Record>, k: nat, st: ImportState)
    requires k <= |rs|
  {
    && st.stored == entry.records + Added(device, entry, rs[..k])
    && st.existing == entry.recordHashes + Sorting.KeysOf(Candidates(device, rs[..k]), HashKey)
    && st.added == |Added(device, entry, rs[..k])|
    && st.skipped == Skipped(rs[..k])
    && st.added + st.duplicates + st.skipped == k
  }

  lemma ImportRecordKeeps(device: string, entry: DeviceEntry, rs: seq<TP.Record>, k: nat, st: ImportState)
    requires k < |rs| && ImportedSoFar(device, entry, rs, k, st)
    ensures ImportedSoFar(device, entry, rs, k + 1, ImportRecord(device, st, rs[k]))
  {
    ImportStep(device, entry, rs, k);
    if rs[k].timestamp >= MinImportTimestamp {
      var hashed := Stored(device, rs[k]);
      if hashed.hash !in st.existing {
        assert st.stored + [hashed] == entry.records + (Added(device, entry, rs[..k]) + [hashed]);
      }
    }
  }

  lemma {:induction false} ImportUpToMeaning(device: string, entry: DeviceEntry, rs: seq<TP.Record>, k: nat)
    requires k <= |rs|
    ensures ImportedSoFar(device, entry, rs, k, ImportUpTo(device, entry, rs, k))
  {
    if k == 0 {
      assert rs[..0] == [];
      assert Sorting.KeysOf(Candidates(device, rs[..0]), HashKey) == {};
    } else {
      ImportUpToMeaning(device, entry, rs, k - 1);
      ImportRecordKeeps(device, entry, rs, k - 1, ImportUpTo(device, entry, rs, k - 1));
    }
  }

  /**
   * The record loop of `_process_device_data`: skip pre-2020 records, append
   * a record iff its hash is not yet in the growing hash set.
   */
  method ImportLoop(deviceName: string, entry: DeviceEntry, records: seq<TP.Record>)
    returns (stored: seq<StoredRecord>, existing: set<RecordHash>, newRecords: nat, duplicates: nat)
    ensures stored == entry.records + Added(deviceName, entry, records)
    ensures existing == entry.recordHashes + Sorting.KeysOf(Candidates(deviceName, records), HashKey)
    ensures newRecords == |Added(deviceName, entry, records)|
    ensures newRecords + duplicates + Skipped(records) == |records|
  {
    existing := entry.recordHashes;
    stored := entry.records;
    newRecords, duplicates := 0, 0;
    var skippedOld := 0;
    for k := 0 to |records|
      invariant ImportState(stored, existing, newRecords, duplicates, skippedOld) == ImportUpTo(deviceName, entry, records, k)
    {
      var record := records[k];
      if record.timestamp < MinImportTimestamp {
        skippedOld := skippedOld + 1;
      } else {
        var hashed := Stored(deviceName, record);
        if hashed.hash !in existing {
          stored := stored + [hashed];
          existing := existing + {hashed.hash};
          newRecords := newRecords + 1;
        } else {
          duplicates := duplicates + 1;
        }
      }
    }
    ImportUpToMeaning(deviceName, entry, records, |records|);
    assert records[..|records|] == records;
  }

  /** What one more input record does to the kept records, the hash set and the skip count. */
  lemma ImportStep(device: string, entry: DeviceEntry, rs: seq<TP.Record>, k: nat)
    requires k < |rs|
    ensures var before := Candidates(device, rs[..k]);
            var hashed := Stored(device, rs[k]);
            if rs[k].timestamp < MinImportTimestamp then
              Candidates(device, rs[..k + 1]) == before
              && Skipped(rs[..k + 1]) == Skipped(rs[..k]) + 1
            else
              Sorting.KeepFirst(Candidates(device, rs[..k + 1]), HashKey, entry.recordHashes)
                == Sorting.KeepFirst(before, HashKey, entry.recordHashes)
                   + (if hashed.hash in entry.recordHashes + Sorting.KeysOf(before, HashKey) then [] else [hashed])
              && Sorting.KeysOf(Candidates(device, rs[..k + 1]), HashKey) == Sorting.KeysOf(before, HashKey) + {hashed.hash}
              && Skipped(rs[..k + 1]) == Skipped(rs[..k])
  {
    var before := Candidates(device, rs[..k]);
    CandidatesStep(device, rs, k);
    if rs[k].timestamp < MinImportTimestamp {
      assert before + [] == before;
    } else {
      var hashed := Stored(device, rs[k]);
      Sorting.KeepFirstAppend(before, hashed, HashKey, entry.recordHashes);
      Sorting.KeysOfSnoc(before, hashed, HashKey);
    }
  }
}
