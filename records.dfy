/** Book records and the pure operations of the record store: migration of
    stored records, the shallow merge of updates, lookup by id, the filling
    in of imported records, and one reading-progress step. */
module Records {
  import opened Wrappers
  import opened Text
  import opened RecordIds

  /** A point in time, in milliseconds; the clock is a parameter of every
      operation that reads it. */
  type Timestamp = nat

  /** One logged reading session; `id` is `log_` and the clock reading. */
  datatype LogEntry = LogEntry(id: string, bookId: string, dateISO: Timestamp, deltaPages: int, note: string)

  /** A tracked book. `pages` is `None` when the stored object has no page count. */
  datatype Record = Record(
    id: string,
    title: string,
    author: string,
    pages: Option<int>,
    tag: string,
    dateAdded: string,
    pagesRead: int,
    readHistory: seq<LogEntry>,
    createdAt: Timestamp,
    updatedAt: Timestamp)

  /** The fields a caller hands to `addRecord`. */
  datatype Draft = Draft(title: string, author: string, pages: Option<int>, tag: string, dateAdded: string)

  /** A record as stored before reading progress existed: the progress fields may be missing. */
  datatype Legacy = Legacy(
    id: string,
    title: string,
    author: string,
    pages: Option<int>,
    tag: string,
    dateAdded: string,
    pagesRead: Option<int>,
    readHistory: Option<seq<LogEntry>>,
    createdAt: Timestamp,
    updatedAt: Timestamp)

  /** A record-like object read from an import file: the id and the
      timestamps may be missing too. */
  datatype Incoming = Incoming(
    id: Option<string>,
    title: string,
    author: string,
    pages: Option<int>,
    tag: string,
    dateAdded: string,
    pagesRead: Option<int>,
    readHistory: Option<seq<LogEntry>>,
    createdAt: Option<Timestamp>,
    updatedAt: Option<Timestamp>)

  /** The keys a partial update object carries; `None` is an absent key. */
  datatype Updates = Updates(
    title: Option<string>,
    author: Option<string>,
    pages: Option<int>,
    tag: Option<string>,
    dateAdded: Option<string>,
    pagesRead: Option<int>,
    readHistory: Option<seq<LogEntry>>)

  const NoUpdates := Updates(None, None, None, None, None, None, None)

  // ---------------------------------------------------------------------------
  // Migration
  // ---------------------------------------------------------------------------

  /** `{...r, pagesRead: r.pagesRead ?? 0, readHistory: r.readHistory ?? []}`. */
  function Migrate(r: Legacy): (m: Record)
    ensures m.id == r.id && m.title == r.title && m.author == r.author && m.pages == r.pages
    ensures m.tag == r.tag && m.dateAdded == r.dateAdded
    ensures m.createdAt == r.createdAt && m.updatedAt == r.updatedAt
    ensures r.pagesRead.Some? ==> m.pagesRead == r.pagesRead.value
    ensures r.pagesRead.None? ==> m.pagesRead == 0
    ensures r.readHistory.Some? ==> m.readHistory == r.readHistory.value
    ensures r.readHistory.None? ==> m.readHistory == []
  {
    Record(r.id, r.title, r.author, r.pages, r.tag, r.dateAdded,
           r.pagesRead.GetOr(0), r.readHistory.GetOr([]), r.createdAt, r.updatedAt)
  }

  /** `migrateData`: every record migrated, in order. */
  function MigrateAll(data: seq<Legacy>): (rs: seq<Record>)
    ensures |rs| == |data| && forall i :: 0 <= i < |data| ==> rs[i] == Migrate(data[i])
  {
    seq(|data|, i requires 0 <= i < |data| => Migrate(data[i]))
  }

  /** How a record is written to storage: every field present, so that
      migrating it gives the record back. */
  function Stored(r: Record): (l: Legacy)
    ensures l.pagesRead.Some? && l.readHistory.Some?
    ensures Migrate(l) == r
  {
    Legacy(r.id, r.title, r.author, r.pages, r.tag, r.dateAdded,
           Some(r.pagesRead), Some(r.readHistory), r.createdAt, r.updatedAt)
  }

  /** `saveData(records)`: the stored form of each record, in order. */
  function StoredAll(rs: seq<Record>): (data: seq<Legacy>)
    ensures |data| == |rs| && forall i :: 0 <= i < |rs| ==> data[i] == Stored(rs[i])
  {
    seq(|rs|, i requires 0 <= i < |rs| => Stored(rs[i]))
  }

  /** Loading what was saved gives back the same collection: migration
      leaves records that already carry progress fields untouched. */
  lemma MigrateStoredRoundTrip(rs: seq<Record>)
    ensures MigrateAll(StoredAll(rs)) == rs
  {
    var back := MigrateAll(StoredAll(rs));
    forall i | 0 <= i < |rs|
      ensures back[i] == rs[i]
    {
      assert StoredAll(rs)[i] == Stored(rs[i]);
    }
  }

  /** Migration is idempotent on the progress fields: a migrated record,
      stored and migrated again, is unchanged. */
  lemma MigrateIdempotent(r: Legacy)
    ensures Migrate(Stored(Migrate(r))) == Migrate(r)
  {
  }

  // ---------------------------------------------------------------------------
  // Lookup
  // ---------------------------------------------------------------------------

  function Ids(records: seq<Record>): (ids: seq<string>)
    ensures |ids| == |records| && forall i :: 0 <= i < |records| ==> ids[i] == records[i].id
  {
    seq(|records|, i requires 0 <= i < |records| => records[i].id)
  }

  /** `records.findIndex(r => r.id === id)`, with `None` for `-1`. */
  function FindIndex(records: seq<Record>, id: string): (k: Option<nat>)
    ensures k.None? <==> forall j :: 0 <= j < |records| ==> records[j].id != id
    ensures k.Some? ==> k.value < |records| && records[k.value].id == id
    ensures k.Some? ==> forall j :: 0 <= j < k.value ==> records[j].id != id
  {
    if records == [] then None
    else if records[0].id == id then Some(0)
    else
      match FindIndex(records[1..], id)
      case None => None
      case Some(j) => Some(j + 1)
  }

  /** `records.find(r => r.id === id)`: the first record with that id. */
  function Find(records: seq<Record>, id: string): (r: Option<Record>)
    ensures r.None? <==> id !in Ids(records)
    ensures r.Some? ==> r.value in records && r.value.id == id
    ensures r.Some? ==> exists k :: 0 <= k < |records| && records[k] == r.value
                                    && forall j :: 0 <= j < k ==> records[j].id != id
  {
    match FindIndex(records, id)
    case None => None
    case Some(k) => Some(records[k])
  }

  // ---------------------------------------------------------------------------
  // Update
  // ---------------------------------------------------------------------------

  function Override<T>(update: Option<T>, current: T): T {
    if update.Some? then update.value else current
  }

  /** `{...r, ...updates, updatedAt: now}`. */
  function ApplyUpdates(r: Record, u: Updates, now: Timestamp): (m: Record)
    ensures m.id == r.id && m.createdAt == r.createdAt && m.updatedAt == now
    ensures m.title == (if u.title.Some? then u.title.value else r.title)
    ensures m.author == (if u.author.Some? then u.author.value else r.author)
    ensures m.pages == (if u.pages.Some? then u.pages else r.pages)
    ensures m.tag == (if u.tag.Some? then u.tag.value else r.tag)
    ensures m.dateAdded == (if u.dateAdded.Some? then u.dateAdded.value else r.dateAdded)
    ensures m.pagesRead == (if u.pagesRead.Some? then u.pagesRead.value else r.pagesRead)
    ensures m.readHistory == (if u.readHistory.Some? then u.readHistory.value else r.readHistory)
  {
    Record(r.id, Override(u.title, r.title), Override(u.author, r.author),
           if u.pages.Some? then u.pages else r.pages,
           Override(u.tag, r.tag), Override(u.dateAdded, r.dateAdded),
           Override(u.pagesRead, r.pagesRead), Override(u.readHistory, r.readHistory),
           r.createdAt, now)
  }

  /** An update with no keys only refreshes `updatedAt`. */
  lemma NoUpdatesOnlyTouches(r: Record, now: Timestamp)
    ensures ApplyUpdates(r, NoUpdates, now) == r.(updatedAt := now)
  {
  }

  /** Merging the same update twice is the same as merging it once. */
  lemma ApplyUpdatesIdempotent(r: Record, u: Updates, first: Timestamp, second: Timestamp)
    ensures ApplyUpdates(ApplyUpdates(r, u, first), u, second) == ApplyUpdates(r, u, second)
  {
  }

  // ---------------------------------------------------------------------------
  // Add and import
  // ---------------------------------------------------------------------------

  /** The record `addRecord` builds from a draft and the counter. */
  function NewRecord(d: Draft, counter: nat, now: Timestamp): (r: Record)
    ensures r.id == FormatId(counter)
    ensures r.title == d.title && r.author == d.author && r.pages == d.pages
    ensures r.tag == d.tag && r.dateAdded == d.dateAdded
    ensures r.pagesRead == 0 && r.readHistory == []
    ensures r.createdAt == now && r.updatedAt == now
  {
    Record(FormatId(counter), d.title, d.author, d.pages, d.tag, d.dateAdded, 0, [], now, now)
  }

  /** `r.id || default`: a missing or empty id is replaced. */
  function IdOr(id: Option<string>, default: string): string {
    if id.None? || id.value == "" then default else id.value
  }

  /** The `data.map((r, i) => ...)` step of `importRecords` for position `i`. */
  function FillIncoming(r: Incoming, i: nat, now: Timestamp): (l: Legacy)
    ensures l.id == (if r.id.None? || r.id.value == "" then FormatId(i + 1) else r.id.value)
    ensures l.createdAt == r.createdAt.GetOr(now) && l.updatedAt == r.updatedAt.GetOr(now)
    ensures l.title == r.title && l.author == r.author && l.pages == r.pages
    ensures l.tag == r.tag && l.dateAdded == r.dateAdded
    ensures l.pagesRead == r.pagesRead && l.readHistory == r.readHistory
  {
    Legacy(IdOr(r.id, FormatId(i + 1)), r.title, r.author, r.pages, r.tag, r.dateAdded,
           r.pagesRead, r.readHistory, r.createdAt.GetOr(now), r.updatedAt.GetOr(now))
  }

  /** The collection `importRecords` installs. */
  function Imported(data: seq<Incoming>, now: Timestamp): (rs: seq<Record>)
    ensures |rs| == |data|
    ensures forall i :: 0 <= i < |data| ==> rs[i] == Migrate(FillIncoming(data[i], i, now))
  {
    MigrateAll(seq(|data|, i requires 0 <= i < |data| => FillIncoming(data[i], i, now)))
  }

  /** Positional ids can clash with explicit ones: an id-less first record
      and a second record that already says `rec_0001` end up sharing it. */
  lemma ImportCanDuplicateIds(a: Incoming, b: Incoming, now: Timestamp)
    requires a.id.None? && b.id == Some("rec_0001")
    ensures var rs := Imported([a, b], now); rs[0].id == rs[1].id == "rec_0001"
  {
    assert FormatId(1) == "rec_0001" by {
      assert NatToString(1) == "1";
      assert Repeat('0', 3) == "000";
    }
  }

  // ---------------------------------------------------------------------------
  // Reading progress
  // ---------------------------------------------------------------------------

  /** The history entry `logReadingProgress` creates. */
  function NewLogEntry(bookId: string, delta: int, note: string, now: Timestamp): LogEntry {
    LogEntry("log_" + NatToString(now), bookId, now, delta, note)
  }

  /** The update object `logReadingProgress` hands to `updateRecord`: the
      new count and the history with the new entry in front. */
  function ProgressUpdates(r: Record, delta: int, note: string, now: Timestamp): (u: Updates)
    ensures u == NoUpdates.(pagesRead := u.pagesRead, readHistory := u.readHistory)
    ensures u.pagesRead == Some(r.pagesRead + delta)
    ensures u.readHistory == Some([NewLogEntry(r.id, delta, note, now)] + r.readHistory)
  {
    NoUpdates.(pagesRead := Some(r.pagesRead + delta),
               readHistory := Some([NewLogEntry(r.id, delta, note, now)] + r.readHistory))
  }

  /** One `logReadingProgress` step on the record found: rejected when the
      new count would exceed a known page count (a missing page count compares
      false and so never rejects), otherwise the count moves by `delta` and
      the new entry goes in front of the history. */
  function LogProgress(r: Record, delta: int, note: string, now: Timestamp): (res: Option<Record>)
    ensures res.None? <==> r.pages.Some? && r.pagesRead + delta > r.pages.value
    ensures res.Some? ==> res.value.pagesRead == r.pagesRead + delta
    ensures res.Some? ==> res.value.readHistory == [NewLogEntry(r.id, delta, note, now)] + r.readHistory
    ensures res.Some? ==> res.value == r.(pagesRead := res.value.pagesRead,
                                          readHistory := res.value.readHistory,
                                          updatedAt := now)
  {
    if r.pages.Some? && r.pagesRead + delta > r.pages.value then None
    else Some(ApplyUpdates(r, ProgressUpdates(r, delta, note, now), now))
  }

  /** A successful step with a non-negative delta keeps `0 <= pagesRead <= pages`. */
  lemma LogProgressKeepsBound(r: Record, delta: int, note: string, now: Timestamp)
    requires r.pages.Some? && 0 <= r.pagesRead <= r.pages.value && delta >= 0
    requires LogProgress(r, delta, note, now).Some?
    ensures var m := LogProgress(r, delta, note, now).value; 0 <= m.pagesRead <= m.pages.value
  {
  }

  /** Only the upper bound is checked: a negative delta can take the count below zero. */
  lemma NegativeDeltaAccepted(r: Record, note: string, now: Timestamp)
    requires r.pagesRead == 0 && (r.pages.Some? ==> r.pages.value >= 0)
    ensures var res := LogProgress(r, -5, note, now); res.Some? && res.value.pagesRead == -5
  {
  }
}
