/** The SQLite store behind the dashboard: the `metrics_data` table of daily
    usage rows keyed by (date, email), the `metadata` table with one row per
    save, and the `manager_data` table that maps an email to its manager,
    director and department. Tables are sequences of rows in id order. */
module Database {
  import opened Wrappers
  import opened Timestamps
  import opened MetricsFrame

  /** The organisation columns looked up for an email. */
  datatype ManagerInfo = ManagerInfo(manager: string, director: string, department: string)

  const NoManager := ManagerInfo("", "", "")

  /** A row of `metrics_data`. */
  datatype MetricsRow = MetricsRow(
    id: nat,
    date: string,
    email: string,
    isActive: bool,
    subscriptionIncludedReqs: int,
    usageBasedReqs: int,
    info: ManagerInfo)

  /** A row of `metadata`. */
  datatype MetadataRow = MetadataRow(id: nat, uploadDate: string, recordCount: nat)

  /** A record dict once the manager columns are added and its date is text. */
  datatype PreparedRecord = PreparedRecord(
    date: string,
    email: string,
    isActive: bool,
    subscriptionIncludedReqs: int,
    usageBasedReqs: int,
    info: ManagerInfo)

  // ---------------------------------------------------------------------
  // Manager lookup and enrichment

  /** `get_manager_info`: the `manager_data` entry for an email, or three
      empty strings when there is none. */
  function GetManagerInfo(managers: map<string, ManagerInfo>, email: string): (info: ManagerInfo)
    ensures email in managers ==> info == managers[email]
    ensures email !in managers ==> info == NoManager
  {
    if email in managers then managers[email] else NoManager
  }

  /** One record after the enrichment and date-formatting loops. */
  function PrepareRecord(r: UsageRecord, managers: map<string, ManagerInfo>): PreparedRecord {
    PreparedRecord(Format(r.date), r.email, r.isActive, r.subscriptionIncludedReqs, r.usageBasedReqs,
                   GetManagerInfo(managers, r.email))
  }

  function PrepareAll(records: seq<UsageRecord>, managers: map<string, ManagerInfo>): seq<PreparedRecord> {
    seq(|records|, i requires 0 <= i < |records| => PrepareRecord(records[i], managers))
  }

  // ---------------------------------------------------------------------
  // The upsert

  predicate KeyIs(r: MetricsRow, date: string, email: string) {
    r.date == date && r.email == email
  }

  /** `SELECT id FROM metrics_data WHERE date = ? AND email = ?` finds a row. */
  predicate HasKey(rows: seq<MetricsRow>, date: string, email: string) {
    exists i :: 0 <= i < |rows| && KeyIs(rows[i], date, email)
  }

  /** The `UPDATE ... SET` of one row from a record. */
  function Overwrite(r: MetricsRow, p: PreparedRecord): MetricsRow {
    r.(isActive := p.isActive, subscriptionIncludedReqs := p.subscriptionIncludedReqs,
       usageBasedReqs := p.usageBasedReqs, info := p.info)
  }

  /** `UPDATE metrics_data ... WHERE date = ? AND email = ?`. */
  function UpdateWhereKey(rows: seq<MetricsRow>, p: PreparedRecord): seq<MetricsRow> {
    seq(|rows|, i requires 0 <= i < |rows| =>
      if KeyIs(rows[i], p.date, p.email) then Overwrite(rows[i], p) else rows[i])
  }

  /** `INSERT INTO metrics_data` with the next autoincrement id. */
  function NewRow(id: nat, p: PreparedRecord): MetricsRow {
    MetricsRow(id, p.date, p.email, p.isActive, p.subscriptionIncludedReqs, p.usageBasedReqs, p.info)
  }

  /** One pass of the upsert loop: the table and the next id afterwards. */
  function Upsert(rows: seq<MetricsRow>, nextId: nat, p: PreparedRecord): (seq<MetricsRow>, nat) {
    if HasKey(rows, p.date, p.email) then (UpdateWhereKey(rows, p), nextId)
    else (rows + [NewRow(nextId, p)], nextId + 1)
  }

  /** The upsert loop over records applied in order. */
  function UpsertAll(rows: seq<MetricsRow>, nextId: nat, ps: seq<PreparedRecord>): (seq<MetricsRow>, nat) {
    if ps == [] then (rows, nextId)
    else
      var (mid, n) := UpsertAll(rows, nextId, ps[..|ps| - 1]);
      Upsert(mid, n, ps[|ps| - 1])
  }

  /** The last record of ps with the given key. */
  function LastFor(ps: seq<PreparedRecord>, date: string, email: string): Option<PreparedRecord> {
    if ps == [] then None
    else if ps[|ps| - 1].date == date && ps[|ps| - 1].email == email then Some(ps[|ps| - 1])
    else LastFor(ps[..|ps| - 1], date, email)
  }

  /** Whether a row holds a record's values. */
  predicate Carries(r: MetricsRow, p: PreparedRecord) {
    && r.date == p.date && r.email == p.email
    && r.isActive == p.isActive && r.subscriptionIncludedReqs == p.subscriptionIncludedReqs
    && r.usageBasedReqs == p.usageBasedReqs && r.info == p.info
  }

  /** The number of rows with a key. */
  function CountKey(rows: seq<MetricsRow>, date: string, email: string): nat {
    if rows == [] then 0
    else CountKey(rows[..|rows| - 1], date, email) + (if KeyIs(rows[|rows| - 1], date, email) then 1 else 0)
  }

  /** LastFor finds the record that comes after every other with its key. */
  lemma {:induction false} LastForIsLast(ps: seq<PreparedRecord>, date: string, email: string)
    ensures LastFor(ps, date, email).Some? <==> exists j :: 0 <= j < |ps| && ps[j].date == date && ps[j].email == email
    ensures LastFor(ps, date, email).Some? ==>
      exists j :: 0 <= j < |ps| && ps[j] == LastFor(ps, date, email).value
        && ps[j].date == date && ps[j].email == email
        && forall k :: j < k < |ps| ==> !(ps[k].date == date && ps[k].email == email)
  {
    if ps != [] {
      var p := ps[..|ps| - 1];
      LastForIsLast(p, date, email);
      assert forall j :: 0 <= j < |p| ==> p[j] == ps[j];
      if !(ps[|ps| - 1].date == date && ps[|ps| - 1].email == email) && LastFor(p, date, email).Some? {
        var j :| 0 <= j < |p| && p[j] == LastFor(p, date, email).value
          && p[j].date == date && p[j].email == email
          && forall k :: j < k < |p| ==> !(p[k].date == date && p[k].email == email);
        assert ps[j] == LastFor(ps, date, email).value;
      }
    }
  }

  lemma {:induction false} CountKeyPositive(rows: seq<MetricsRow>, date: string, email: string)
    ensures CountKey(rows, date, email) > 0 <==> HasKey(rows, date, email)
  {
    if rows != [] {
      var p := rows[..|rows| - 1];
      CountKeyPositive(p, date, email);
      assert forall i :: 0 <= i < |p| ==> p[i] == rows[i];
      if HasKey(rows, date, email) && !KeyIs(rows[|rows| - 1], date, email) {
        var i :| 0 <= i < |rows| && KeyIs(rows[i], date, email);
        assert i < |p| && KeyIs(p[i], date, email);
      }
    }
  }

  lemma {:induction false} CountKeyAfterUpdate(rows: seq<MetricsRow>, p: PreparedRecord, date: string, email: string)
    ensures CountKey(UpdateWhereKey(rows, p), date, email) == CountKey(rows, date, email)
  {
    if rows != [] {
      var q := rows[..|rows| - 1];
      CountKeyAfterUpdate(q, p, date, email);
      assert UpdateWhereKey(rows, p)[..|rows| - 1] == UpdateWhereKey(q, p);
    }
  }

  /** What one pass of the upsert loop does, row by row. */
  lemma UpsertStep(rows: seq<MetricsRow>, nextId: nat, p: PreparedRecord)
    ensures var (out, n) := Upsert(rows, nextId, p);
      && |out| == |rows| + (if HasKey(rows, p.date, p.email) then 0 else 1)
      && n == nextId + (|out| - |rows|)
      && (forall i :: 0 <= i < |rows| ==>
            out[i] == if KeyIs(rows[i], p.date, p.email) then Overwrite(rows[i], p) else rows[i])
      && (|out| > |rows| ==> out[|rows|] == NewRow(nextId, p))
  {
  }

  /** The effect of the whole upsert loop: existing rows keep their ids and
      keys; a row whose key no record has is unchanged; every row whose key
      some record has holds the values of the LAST such record; the rows
      added come after the old ones, with consecutive new ids, one per key
      not seen before. */
  lemma {:induction false} UpsertAllEffect(rows: seq<MetricsRow>, nextId: nat, ps: seq<PreparedRecord>)
    ensures var (out, n) := UpsertAll(rows, nextId, ps);
      && |rows| <= |out| && n == nextId + (|out| - |rows|)
      && (forall i :: 0 <= i < |rows| ==>
            out[i].id == rows[i].id && KeyIs(out[i], rows[i].date, rows[i].email))
      && (forall i :: 0 <= i < |rows| && LastFor(ps, rows[i].date, rows[i].email).None? ==> out[i] == rows[i])
      && (forall i :: 0 <= i < |out| && LastFor(ps, out[i].date, out[i].email).Some? ==>
            Carries(out[i], LastFor(ps, out[i].date, out[i].email).value))
      && (forall i :: |rows| <= i < |out| ==>
            out[i].id == nextId + (i - |rows|) && LastFor(ps, out[i].date, out[i].email).Some?)
  {
    if ps != [] {
      var ps' := ps[..|ps| - 1];
      var p := ps[|ps| - 1];
      UpsertAllEffect(rows, nextId, ps');
      var (mid, m) := UpsertAll(rows, nextId, ps');
      UpsertStep(mid, m, p);
      var (out, n) := Upsert(mid, m, p);
      assert (out, n) == UpsertAll(rows, nextId, ps);
      forall i | 0 <= i < |out| && LastFor(ps, out[i].date, out[i].email).Some?
        ensures Carries(out[i], LastFor(ps, out[i].date, out[i].email).value)
      {
        if i < |mid| && !KeyIs(mid[i], p.date, p.email) {
          assert out[i] == mid[i];
        }
      }
    }
  }

  /** Saving never duplicates a key: a key no record has keeps its count, a
      new key gains exactly one row, an existing key gains none. */
  lemma {:induction false} UpsertAllCount(rows: seq<MetricsRow>, nextId: nat, ps: seq<PreparedRecord>,
                                          date: string, email: string)
    ensures CountKey(UpsertAll(rows, nextId, ps).0, date, email)
            == if LastFor(ps, date, email).Some? && CountKey(rows, date, email) == 0 then 1
               else CountKey(rows, date, email)
  {
    if ps != [] {
      var ps' := ps[..|ps| - 1];
      var p := ps[|ps| - 1];
      UpsertAllCount(rows, nextId, ps', date, email);
      var (mid, m) := UpsertAll(rows, nextId, ps');
      CountKeyPositive(mid, p.date, p.email);
      CountKeyPositive(mid, date, email);
      if HasKey(mid, p.date, p.email) {
        CountKeyAfterUpdate(mid, p, date, email);
      } else {
        var out := mid + [NewRow(m, p)];
        assert out[..|out| - 1] == mid;
      }
    }
  }

  /** Two records with one key, saved in one call, leave the key on exactly
      one row if it was new, and every row with it holds the later record. */
  lemma LaterRecordWins(rows: seq<MetricsRow>, nextId: nat, a: PreparedRecord, b: PreparedRecord)
    requires a.date == b.date && a.email == b.email
    ensures var out := UpsertAll(rows, nextId, [a, b]).0;
      && CountKey(out, b.date, b.email) == (if CountKey(rows, b.date, b.email) == 0 then 1 else CountKey(rows, b.date, b.email))
      && forall i :: 0 <= i < |out| && KeyIs(out[i], b.date, b.email) ==> Carries(out[i], b)
  {
    var ps := [a, b];
    assert LastFor(ps, b.date, b.email) == Some(b);
    UpsertAllCount(rows, nextId, ps, b.date, b.email);
    UpsertAllEffect(rows, nextId, ps);
  }

  // ---------------------------------------------------------------------
  // Ids

  /** Ids strictly increase down the table and lie below the next id. */
  predicate MetricsIdsValid(rows: seq<MetricsRow>, nextId: nat) {
    && (forall i, j :: 0 <= i < j < |rows| ==> rows[i].id < rows[j].id)
    && (forall i :: 0 <= i < |rows| ==> rows[i].id < nextId)
  }

  predicate MetadataIdsValid(rows: seq<MetadataRow>, nextId: nat) {
    && (forall i, j :: 0 <= i < j < |rows| ==> rows[i].id < rows[j].id)
    && (forall i :: 0 <= i < |rows| ==> rows[i].id < nextId)
  }

  lemma UpsertAllKeepsIds(rows: seq<MetricsRow>, nextId: nat, ps: seq<PreparedRecord>)
    requires MetricsIdsValid(rows, nextId)
    ensures MetricsIdsValid(UpsertAll(rows, nextId, ps).0, UpsertAll(rows, nextId, ps).1)
  {
    UpsertAllEffect(rows, nextId, ps);
  }

  /** `ORDER BY id DESC LIMIT 1`: the row with the largest id, if any. */
  function LatestMetadata(rows: seq<MetadataRow>): (r: Option<MetadataRow>)
    ensures r.None? <==> rows == []
    ensures r.Some? ==> r.value in rows && forall x :: x in rows ==> x.id <= r.value.id
  {
    if rows == [] then None
    else
      match LatestMetadata(rows[1..])
      case None => Some(rows[0])
      case Some(m) => if m.id > rows[0].id then Some(m) else Some(rows[0])
  }

  /** With ids in increasing order, the latest metadata row is the last one. */
  lemma {:induction false} LatestIsLast(rows: seq<MetadataRow>, nextId: nat)
    requires MetadataIdsValid(rows, nextId) && rows != []
    ensures LatestMetadata(rows) == Some(rows[|rows| - 1])
  {
    if |rows| > 1 {
      var tail := rows[1..];
      assert forall i, j :: 0 <= i < j < |tail| ==> tail[i].id == rows[i + 1].id && tail[j].id == rows[j + 1].id;
      LatestIsLast(tail, nextId);
      assert rows[0].id < rows[|rows| - 1].id;
    }
  }

  // ---------------------------------------------------------------------
  // Back-fill

  /** The manager columns of every row agree with `manager_data` wherever
      the row's email has an entry there. */
  predicate InfoConsistent(rows: seq<MetricsRow>, managers: map<string, ManagerInfo>) {
    forall i :: 0 <= i < |rows| && rows[i].email in managers ==> rows[i].info == managers[rows[i].email]
  }

  /** The table after `update_metrics_manager_data`: rows whose email is in
      `manager_data` take that entry's three columns, all others stay. */
  function Backfill(rows: seq<MetricsRow>, managers: map<string, ManagerInfo>): seq<MetricsRow> {
    seq(|rows|, i requires 0 <= i < |rows| =>
      if rows[i].email in managers then rows[i].(info := managers[rows[i].email]) else rows[i])
  }

  /** The back-fill changes exactly the manager columns of the rows whose
      email has an entry, leaves every other row as it was, makes the table
      consistent with the directory, and changes nothing a second time. */
  lemma BackfillSpec(rows: seq<MetricsRow>, managers: map<string, ManagerInfo>)
    ensures |Backfill(rows, managers)| == |rows|
    ensures forall i :: 0 <= i < |rows| ==>
      var out := Backfill(rows, managers)[i];
      && out.(info := rows[i].info) == rows[i]
      && (rows[i].email in managers ==> out.info == managers[rows[i].email])
      && (rows[i].email !in managers ==> out == rows[i])
    ensures InfoConsistent(Backfill(rows, managers), managers)
    ensures Backfill(Backfill(rows, managers), managers) == Backfill(rows, managers)
    ensures InfoConsistent(rows, managers) <==> Backfill(rows, managers) == rows
  {
    if Backfill(rows, managers) == rows {
      forall i | 0 <= i < |rows| && rows[i].email in managers
        ensures rows[i].info == managers[rows[i].email]
      {
        assert Backfill(rows, managers)[i] == rows[i];
      }
    }
  }

  /** A save enriches records from the same `manager_data`, so it keeps the
      manager columns consistent once a back-fill has made them so. */
  lemma {:induction false} SaveKeepsInfoConsistent(rows: seq<MetricsRow>, nextId: nat,
                                                   records: seq<UsageRecord>, managers: map<string, ManagerInfo>)
    requires InfoConsistent(rows, managers)
    ensures InfoConsistent(UpsertAll(rows, nextId, PrepareAll(records, managers)).0, managers)
  {
    var ps := PrepareAll(records, managers);
    var out := UpsertAll(rows, nextId, ps).0;
    UpsertAllEffect(rows, nextId, ps);
    forall i | 0 <= i < |out| && out[i].email in managers
      ensures out[i].info == managers[out[i].email]
    {
      if LastFor(ps, out[i].date, out[i].email).Some? {
        LastForIsLast(ps, out[i].date, out[i].email);
      }
    }
  }

  /** The enrichment loop and the date loop of a save, fused: each record
      gets its manager columns and its date as text. */
  method PrepareRecords(records: seq<UsageRecord>, managers: map<string, ManagerInfo>)
    returns (prepared: seq<PreparedRecord>)
    ensures prepared == PrepareAll(records, managers)
  {
    prepared := [];
    for i := 0 to |records|
      invariant |prepared| == i
      invariant forall j :: 0 <= j < i ==> prepared[j] == PrepareRecord(records[j], managers)
    {
      var info := GetManagerInfo(managers, records[i].email);
      var date := Format(records[i].date);
      prepared := prepared + [PreparedRecord(date, records[i].email, records[i].isActive,
                                             records[i].subscriptionIncludedReqs, records[i].usageBasedReqs, info)];
    }
  }

  // ---------------------------------------------------------------------
  // The database

  class MetricsDb {
    /** `metrics_data`, in id order. */
    var metrics: seq<MetricsRow>
    /** `metadata`, in id order. */
    var metadata: seq<MetadataRow>
    /** `manager_data`, keyed by its unique email column. */
    var managers: map<string, ManagerInfo>
    /** The AUTOINCREMENT counters: never reused, not reset by DELETE. */
    var nextMetricsId: nat
    var nextMetadataId: nat

    ghost predicate Valid()
      reads this
    {
      MetricsIdsValid(metrics, nextMetricsId) && MetadataIdsValid(metadata, nextMetadataId)
    }

    /** A database with the given manager directory and no metrics yet. */
    constructor (managers: map<string, ManagerInfo>)
      ensures Valid()
      ensures this.metrics == [] && this.metadata == [] && this.managers == managers
    {
      this.metrics := [];
      this.metadata := [];
      this.managers := managers;
      this.nextMetricsId := 1;
      this.nextMetadataId := 1;
    }

    /** `save_data_to_db`: enrich each record with its manager columns and
        its date as text, upsert them in order on (date, email), then log
        one metadata row counting the records. `uploadDate` stands for the
        clock reading written into that row. */
    method SaveData(records: seq<UsageRecord>, uploadDate: string)
      requires Valid()
      modifies this
      ensures Valid()
      ensures managers == old(managers)
      ensures (metrics, nextMetricsId) == UpsertAll(old(metrics), old(nextMetricsId), PrepareAll(records, managers))
      ensures metadata == old(metadata) + [MetadataRow(old(nextMetadataId), uploadDate, |records|)]
      ensures nextMetadataId == old(nextMetadataId) + 1
      ensures CurrentFileInfo() == Some(MetadataRow(old(nextMetadataId), uploadDate, |records|))
    {
      var prepared := PrepareRecords(records, managers);
      UpsertRecords(prepared);

      LogUpload(uploadDate, |records|);
    }

    /** The `INSERT INTO metadata` that ends a save. */
    method LogUpload(uploadDate: string, recordCount: nat)
      requires Valid()
      modifies this
      ensures Valid()
      ensures metadata == old(metadata) + [MetadataRow(old(nextMetadataId), uploadDate, recordCount)]
      ensures nextMetadataId == old(nextMetadataId) + 1
      ensures metrics == old(metrics) && nextMetricsId == old(nextMetricsId) && managers == old(managers)
      ensures CurrentFileInfo() == Some(MetadataRow(old(nextMetadataId), uploadDate, recordCount))
    {
      metadata := metadata + [MetadataRow(nextMetadataId, uploadDate, recordCount)];
      nextMetadataId := nextMetadataId + 1;
    }

    /** The upsert loop of a save: a record whose (date, email) is already
        in `metrics_data` overwrites every such row, any other is inserted
        under the next id. */
    method UpsertRecords(ps: seq<PreparedRecord>)
      requires Valid()
      modifies this
      ensures Valid()
      ensures (metrics, nextMetricsId) == UpsertAll(old(metrics), old(nextMetricsId), ps)
      ensures metadata == old(metadata) && nextMetadataId == old(nextMetadataId) && managers == old(managers)
    {
      for i := 0 to |ps|
        invariant (metrics, nextMetricsId) == UpsertAll(old(metrics), old(nextMetricsId), ps[..i])
        invariant metadata == old(metadata) && nextMetadataId == old(nextMetadataId) && managers == old(managers)
      {
        var p := ps[i];
        assert ps[..i + 1][..i] == ps[..i];
        if HasKey(metrics, p.date, p.email) {
          metrics := UpdateWhereKey(metrics, p);
        } else {
          metrics := metrics + [NewRow(nextMetricsId, p)];
          nextMetricsId := nextMetricsId + 1;
        }
      }
      assert ps[..|ps|] == ps;
      UpsertAllKeepsIds(old(metrics), old(nextMetricsId), ps);
    }

    /** `get_current_file_info`: the metadata row with the largest id, or
        None when there is none; ids increase, so it is the last row. */
    function CurrentFileInfo(): (r: Option<MetadataRow>)
      requires Valid()
      reads this
      ensures r == LatestMetadata(metadata)
      ensures r.None? <==> metadata == []
      ensures r.Some? ==> r.value == metadata[|metadata| - 1]
    {
      if metadata == [] then None
      else
        LatestIsLast(metadata, nextMetadataId);
        LatestMetadata(metadata)
    }

    /** `load_data_from_db`: None when `metrics_data` is empty, else its rows. */
    function LoadData(): (r: Option<seq<MetricsRow>>)
      reads this
      ensures r.None? <==> metrics == []
      ensures r.Some? ==> r.value == metrics
    {
      if metrics == [] then None else Some(metrics)
    }

    /** `delete_current_file`: empty `metrics_data` and `metadata`; the
        manager directory and the id counters stay. */
    method DeleteCurrentFile()
      requires Valid()
      modifies this
      ensures Valid()
      ensures metrics == [] && metadata == [] && managers == old(managers)
      ensures nextMetricsId == old(nextMetricsId) && nextMetadataId == old(nextMetadataId)
      ensures LoadData() == None && CurrentFileInfo() == None
    {
      metrics := [];
      metadata := [];
    }

    /** `update_metrics_manager_data`: one UPDATE statement, visiting the
        rows in turn and rewriting those whose email is in `manager_data`. */
    method UpdateMetricsManagerData()
      requires Valid()
      modifies this
      ensures Valid()
      ensures metrics == Backfill(old(metrics), managers)
      ensures managers == old(managers) && metadata == old(metadata)
      ensures nextMetricsId == old(nextMetricsId) && nextMetadataId == old(nextMetadataId)
    {
      for i := 0 to |metrics|
        invariant |metrics| == |old(metrics)|
        invariant forall j :: 0 <= j < i ==> metrics[j] == Backfill(old(metrics), managers)[j]
        invariant forall j :: i <= j < |metrics| ==> metrics[j] == old(metrics)[j]
        invariant managers == old(managers) && metadata == old(metadata)
        invariant nextMetricsId == old(nextMetricsId) && nextMetadataId == old(nextMetadataId)
      {
        var row := metrics[i];
        if row.email in managers {
          metrics := metrics[i := row.(info := managers[row.email])];
        }
      }
    }
  }
}
