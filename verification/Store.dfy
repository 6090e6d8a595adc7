/**
 * The gateway's reading history: one SQLite file seen as committed tables with key and CHECK
 * constraints, migrated once, appended to by transactions, and read back.
 */
module Store {
  import opened Wrappers

  const PORT_ID: string := "sim-port-1"
  const MAX_SEQUENCE: int := 315360000

  datatype PortRow = PortRow(id: string, mode: string, state: string, actualOutput: string)

  /** `second` is the offset of `sampled_at` from 2026-01-01T00:00:00Z. */
  datatype Reading = Reading(voltageMV: int, currentMA: int, powerW: int, energyMilliWh: int, second: int)

  type Readings = map<(string, int), Reading>

  /** The committed content of the file; `objects` counts its user-made schema objects. */
  datatype Database = Database(version: int, objects: nat, ports: seq<PortRow>, readings: Readings)

  const EMPTY_FILE: Database := Database(0, 0, [], map[])

  // ---- the schema's constraints ----

  predicate PortAllowed(ports: seq<PortRow>, p: PortRow) {
    && p.id == PORT_ID && p.mode == "simulator" && p.state == "active" && p.actualOutput == "closed"
    && forall i :: 0 <= i < |ports| ==> ports[i].id != p.id
  }

  predicate ReadingAllowed(db: Database, id: string, sequence: int, r: Reading) {
    && (exists i :: 0 <= i < |db.ports| && db.ports[i].id == id)   // foreign key
    && (id, sequence) !in db.readings                              // primary key
    && 0 <= sequence <= MAX_SEQUENCE
    && r.voltageMV == 230000 && r.currentMA == 1565 && r.powerW == 360
    && r.energyMilliWh == sequence * 100
  }

  function InsertPort(db: Database, p: PortRow): Option<Database> {
    if PortAllowed(db.ports, p) then Some(db.(ports := db.ports + [p])) else None
  }

  function InsertReading(db: Database, id: string, sequence: int, r: Reading): Option<Database> {
    if ReadingAllowed(db, id, sequence, r) then Some(db.(readings := db.readings[(id, sequence) := r])) else None
  }

  /** A port row is stored exactly if it is the simulator's and no row has its key yet; then nothing else changes. */
  lemma PortInsertedExactly(db: Database, p: PortRow)
    ensures InsertPort(db, p) ==
      if p == PortRow("sim-port-1", "simulator", "active", "closed") && forall q :: q in db.ports ==> q.id != p.id
      then Some(Database(db.version, db.objects, db.ports + [p], db.readings)) else None
  {
    assert (forall q :: q in db.ports ==> q.id != p.id) <==> forall i :: 0 <= i < |db.ports| ==> db.ports[i].id != p.id;
  }

  // ---- what the history is meant to be ----

  const SIM_PORT: PortRow := PortRow(PORT_ID, "simulator", "active", "closed")

  function ReadingAt(sequence: int): Reading {
    Reading(230000, 1565, 360, sequence * 100, sequence)
  }

  /** Exactly the sequences 0..n, each with 100 mWh per step. */
  function History(n: nat): Readings {
    map k: int | 0 <= k <= n :: (PORT_ID, k) := ReadingAt(k)
  }

  /** A migrated file with n appended readings. */
  function Stored(n: nat): Database {
    Database(1, 2, [SIM_PORT], History(n))
  }

  // ---- queries ----

  ghost predicate IsMax(readings: Readings, id: string, m: int) {
    (id, m) in readings && forall k: int :: (id, k) in readings ==> k <= m
  }

  /** `SELECT MAX(sequence) ... WHERE port_id = id`; None is SQL's NULL. */
  ghost function MaxSequence(readings: Readings, id: string): (r: Option<int>)
    ensures r.None? ==> forall m :: !IsMax(readings, id, m)
    ensures r.Some? ==> IsMax(readings, id, r.value)
  {
    if m: int :| IsMax(readings, id, m) then Some(m) else None
  }

  lemma MaxOfHistory(n: nat)
    ensures MaxSequence(History(n), PORT_ID) == Some(n)
  {
    assert (PORT_ID, n) in History(n);
    assert IsMax(History(n), PORT_ID, n);
  }

  lemma NoMaxWhenEmpty(id: string)
    ensures MaxSequence(map[], id) == None
  {
  }

  // ---- opening ----

  datatype OpenFault =
    | NoFault | IntegrityFails | BeginFails | VersionFails | CountFails | MigrationFails | ValidateFails | CommitFails

  datatype StoreError =
    | IntegrityCheckFailed | Unavailable | QueryFailed | UnrelatedDatabase | MigrationFailed
    | UnsupportedVersion(version: int) | InvalidSimulatorDatabase | CommitFailed | ReplayExhausted | ConstraintViolated
    | PortUnavailable

  /** The validating query: how many port rows are the simulator's and have a first reading. */
  function SeedCount(ports: seq<PortRow>, readings: Readings): nat {
    if ports == [] then 0
    else
      var p := ports[|ports| - 1];
      SeedCount(ports[..|ports| - 1], readings) + if p == SIM_PORT && (p.id, 0) in readings then 1 else 0
  }

  predicate HasSeed(db: Database) { SeedCount(db.ports, db.readings) == 1 }

  /** The migration's statements, run in order inside the transaction; the two tables are new and so empty. */
  function Migrate(db: Database): Option<Database> {
    var created := Database(db.version, db.objects + 2, [], map[]);
    var withPort :- InsertPort(created, SIM_PORT);
    var seeded :- InsertReading(withPort, PORT_ID, 0, ReadingAt(0));
    Some(seeded.(version := 1))
  }

  /** `initializeStore`: the file afterwards, and the error if there is one. */
  function Initialize(db: Database, fault: OpenFault): (Database, Option<StoreError>) {
    if fault.IntegrityFails? then (db, Some(IntegrityCheckFailed))
    else if fault.BeginFails? then (db, Some(Unavailable))
    else if fault.VersionFails? then (db, Some(QueryFailed))
    else if db.version == 0 then
      if fault.CountFails? then (db, Some(QueryFailed))
      else if db.objects != 0 then (db, Some(UnrelatedDatabase))
      else if fault.MigrationFails? || Migrate(db).None? then (db, Some(MigrationFailed))
      else CheckAndCommit(db, Migrate(db).value, fault)
    else if db.version == 1 then CheckAndCommit(db, db, fault)
    else (db, Some(UnsupportedVersion(db.version)))
  }

  function CheckAndCommit(db: Database, changed: Database, fault: OpenFault): (Database, Option<StoreError>) {
    if fault.ValidateFails? || !HasSeed(changed) then (db, Some(InvalidSimulatorDatabase))
    else if fault.CommitFails? then (db, Some(CommitFailed))
    else (changed, None)
  }

  lemma MigrateEmpty(db: Database)
    requires db.objects == 0
    ensures Migrate(db) == Some(Stored(0))
  {
    var created := Database(db.version, 2, [], map[]);
    var withPort := Database(db.version, 2, [SIM_PORT], map[]);
    assert [] + [SIM_PORT] == [SIM_PORT];
    assert InsertPort(created, SIM_PORT) == Some(withPort);
    assert withPort.ports[0].id == PORT_ID;
    assert map[(PORT_ID, 0) := ReadingAt(0)] == History(0);
  }

  lemma StoredHasSeed(n: nat)
    ensures HasSeed(Stored(n))
  {
    assert [SIM_PORT][..0] == [];
    assert (PORT_ID, 0) in History(n);
  }

  /** Row `i` is the simulator's and has its first reading. */
  predicate IsSeed(db: Database, i: nat)
    requires i < |db.ports|
  {
    db.ports[i] == PortRow("sim-port-1", "simulator", "active", "closed") && ("sim-port-1", 0) in db.readings
  }

  function SeedRows(db: Database): set<nat> {
    set i: nat | i < |db.ports| && IsSeed(db, i)
  }

  /** There is one such row and no other. */
  predicate OneSeed(db: Database) { |SeedRows(db)| == 1 }

  lemma {:induction false} SeedCounted(db: Database)
    ensures SeedCount(db.ports, db.readings) == |SeedRows(db)|
    decreases |db.ports|
  {
    if db.ports == [] {
      assert SeedRows(db) == {};
    } else {
      var n := |db.ports| - 1;
      var front := db.(ports := db.ports[..n]);
      SeedCounted(front);
      assert forall i: nat :: i < n ==> IsSeed(front, i) == IsSeed(db, i);
      assert SeedRows(db) == if IsSeed(db, n) then SeedRows(front) + {n} else SeedRows(front);
    }
  }

  /**
   * Of all files exactly those without a version and without objects, and those of version 1 with the seeded
   * simulator port, are opened without an error, unless a query that is needed fails; what happens otherwise.
   */
  lemma OpensExactly(db: Database, fault: OpenFault)
    ensures var (after, error) := Initialize(db, fault);
      && (error.None? <==>
            && (fault.NoFault? || (db.version == 1 && (fault.CountFails? || fault.MigrationFails?)))
            && ((db.version == 0 && db.objects == 0) || (db.version == 1 && OneSeed(db))))
      && after == if error.None? && db.version == 0 then Stored(0) else db
    ensures var reached := !fault.IntegrityFails? && !fault.BeginFails? && !fault.VersionFails?;
      var error := Initialize(db, fault).1;
      && (error == Some(IntegrityCheckFailed) <==> fault.IntegrityFails?)
      && (error == Some(Unavailable) <==> fault.BeginFails?)
      && (error == Some(QueryFailed) <==> fault.VersionFails? || (db.version == 0 && fault.CountFails?))
      && (error == Some(UnsupportedVersion(db.version)) <==> reached && db.version != 0 && db.version != 1)
      && (error == Some(UnrelatedDatabase) <==>
            reached && db.version == 0 && !fault.CountFails? && db.objects != 0)
      && (error == Some(MigrationFailed) <==> db.version == 0 && db.objects == 0 && fault.MigrationFails?)
      && (error == Some(InvalidSimulatorDatabase) <==>
            || (db.version == 1 && reached && (fault.ValidateFails? || !OneSeed(db)))
            || (db.version == 0 && db.objects == 0 && fault.ValidateFails?))
      && (error == Some(CommitFailed) <==>
            fault.CommitFails? && ((db.version == 0 && db.objects == 0) || (db.version == 1 && OneSeed(db))))
  {
    hide Stored, Migrate, SeedCount, SeedRows;
    SeedCounted(db);
    if db.objects == 0 {
      MigrateEmpty(db);
      StoredHasSeed(0);
    }
  }

  /** What the history is, row by row. */
  lemma StoredRows(n: nat, key: (string, int))
    ensures Stored(n).version == 1 && Stored(n).ports == [PortRow("sim-port-1", "simulator", "active", "closed")]
    ensures key in Stored(n).readings <==> key.0 == "sim-port-1" && 0 <= key.1 <= n
    ensures key in Stored(n).readings ==> Stored(n).readings[key] == Reading(230000, 1565, 360, 100 * key.1, key.1)
  {
  }

  /** Opening writes only to an empty file; any other file, its own or a foreign one, is left as it was. */
  lemma OpeningOnlyFillsEmpty(db: Database, fault: OpenFault)
    ensures var (after, error) := Initialize(db, fault);
      && (after != db ==> db.version == 0 && db.objects == 0 && error.None?)
      && (error.Some? ==> after == db)
      && (db.version != 0 || db.objects != 0 ==> after == db)
  {
  }

  /** Opening an empty file makes the seeded history; opening a history again changes nothing. */
  lemma OpeningOwnFiles(n: nat, fault: OpenFault)
    ensures Initialize(EMPTY_FILE, NoFault) == (Stored(0), None)
    ensures Initialize(EMPTY_FILE, fault).0 == EMPTY_FILE || Initialize(EMPTY_FILE, fault) == (Stored(0), None)
    ensures Initialize(Stored(n), NoFault) == (Stored(n), None)
    ensures Initialize(Stored(n), fault).0 == Stored(n)
  {
    hide Stored, HasSeed, Migrate;
    MigrateEmpty(EMPTY_FILE);
    StoredHasSeed(0);
    StoredHasSeed(n);
    assert Stored(n).version == 1 by { StoredVersion(n); }
  }

  lemma StoredVersion(n: nat)
    ensures Stored(n).version == 1
  {
  }

  // ---- appending, in two steps that other connections may come between ----

  datatype AppendFault = NoAppendFault | AppendBeginFails | SelectFails | InsertFails | AppendCommitFails

  /** The first half of `appendReading`: the previous sequence this transaction read. */
  ghost function ReadPrevious(db: Database): Result<int, StoreError> {
    match MaxSequence(db.readings, PORT_ID)
    case None => Err(QueryFailed)
    case Some(previous) => if previous >= MAX_SEQUENCE then Err(ReplayExhausted) else Ok(previous)
  }

  /** The second half: insert the next reading and commit, under the constraints of the file as it is now. */
  function InsertNext(db: Database, previous: int): (Database, Option<StoreError>) {
    var sequence := previous + 1;
    match InsertReading(db, PORT_ID, sequence, ReadingAt(sequence))
    case Some(after) => (after, None)
    case None => (db, Some(ConstraintViolated))
  }

  /** An insert is accepted exactly when nobody appended since the transaction read its previous sequence. */
  lemma InsertAfterRead(n: nat, previous: nat)
    requires previous <= n <= MAX_SEQUENCE && previous < MAX_SEQUENCE
    ensures InsertNext(Stored(n), previous) ==
      if previous == n then (Stored(n + 1), None) else (Stored(n), Some(ConstraintViolated))
  {
    var db := Stored(n);
    assert db.ports[0].id == PORT_ID;
    assert (PORT_ID, previous + 1) in db.readings <==> previous < n;
    if previous == n {
      assert db.readings[(PORT_ID, n + 1) := ReadingAt(n + 1)] == History(n + 1);
    }
  }

  lemma MaxIsUnique(readings: Readings, id: string, m: int, k: int)
    requires IsMax(readings, id, m) && IsMax(readings, id, k)
    ensures m == k
  {
  }

  /** What one undisturbed append does to any file, given its last sequence: the next row, or one of two refusals. */
  lemma AppendsExactly(db: Database, m: int)
    requires IsMax(db.readings, "sim-port-1", m)
    ensures m >= 315360000 <==> ReadPrevious(db) == Err(ReplayExhausted)
    ensures m < 315360000 <==> ReadPrevious(db) == Ok(m)
    ensures m < 315360000 ==>
      var row := Reading(230000, 1565, 360, 100 * (m + 1), m + 1);
      InsertNext(db, m) ==
        if m >= -1 && exists i :: 0 <= i < |db.ports| && db.ports[i].id == "sim-port-1"
        then (db.(readings := db.readings[("sim-port-1", m + 1) := row]), None)
        else (db, Some(ConstraintViolated))
  {
    MaxIsUnique(db.readings, PORT_ID, m, MaxSequence(db.readings, PORT_ID).value);
  }

  /** A file without readings is not appended to. */
  lemma NoReadingsNoAppend(db: Database)
    requires forall m :: !IsMax(db.readings, "sim-port-1", m)
    ensures ReadPrevious(db) == Err(QueryFailed)
  {
  }

  // ---- every run ----

  /** The file and the appends under way, by connection: the previous sequence each has read. */
  datatype System = System(file: Database, open: map<nat, nat>)

  datatype Event =
    | Open(openFault: OpenFault)
    | Begin(connection: nat)                       // begin, read the maximum
    | Finish(connection: nat, fails: bool)         // insert and commit, unless an error intervenes
    | Abandon(connection: nat)                     // an error or a timeout rolls the transaction back
    | Crash                                        // every transaction under way is lost

  ghost function After(s: System, e: Event): System {
    match e
    case Open(fault) => s.(file := Initialize(s.file, fault).0)
    case Begin(c) =>
      var r := ReadPrevious(s.file);
      if r.Ok? && r.value >= 0 then s.(open := s.open[c := r.value]) else s
    case Finish(c, fails) =>
      if c !in s.open then s
      else if fails then s.(open := s.open - {c})
      else System(InsertNext(s.file, s.open[c]).0, s.open - {c})
    case Abandon(c) => s.(open := s.open - {c})
    case Crash => s.(open := map[])
  }

  /** The number of appended readings, or -1 for a file not yet migrated. */
  ghost predicate HoldsHistory(db: Database, n: int) {
    -1 <= n <= MAX_SEQUENCE && db == if n == -1 then EMPTY_FILE else Stored(n)
  }

  ghost predicate Consistent(s: System, n: int) {
    HoldsHistory(s.file, n) && forall c :: c in s.open ==> s.open[c] <= n && s.open[c] < MAX_SEQUENCE
  }

  /** One event keeps the history or extends it by exactly one reading. */
  lemma EventKeepsHistory(s: System, e: Event, n: int) returns (m: int)
    requires Consistent(s, n)
    ensures Consistent(After(s, e), m)
    ensures m == n || m == n + 1
    ensures m == n ==> After(s, e).file == s.file
    ensures m == n + 1 ==> if n == -1 then e.Open? && Initialize(s.file, e.openFault).1.None? else e.Finish? && !e.fails
  {
    hide Stored, Initialize, InsertNext;
    m := n;
    match e
    case Open(fault) =>
      if n == -1 {
        OpeningOwnFiles(0, fault);
        if After(s, e).file != EMPTY_FILE {
          m := 0;
        }
      } else {
        OpeningOwnFiles(n, fault);
      }
    case Begin(c) =>
      if n == -1 {
        NoMaxWhenEmpty(PORT_ID);
      } else {
        MaxOfStored(n);
      }
    case Finish(c, fails) =>
      if c in s.open && !fails {
        InsertAfterRead(n, s.open[c]);
        if s.open[c] == n {
          m := n + 1;
        }
      }
    case Abandon(_) =>
    case Crash =>
  }

  lemma MaxOfStored(n: nat)
    ensures MaxSequence(Stored(n).readings, PORT_ID) == Some(n)
  {
    MaxOfHistory(n);
  }

  ghost function Run(s: System, events: seq<Event>): System
    decreases |events|
  {
    if events == [] then s else Run(After(s, events[0]), events[1..])
  }

  const FRESH: System := System(EMPTY_FILE, map[])

  /** Over every run the file is empty or holds exactly the sequences 0..m, and m never falls. */
  lemma {:induction false} RunKeepsHistory(s: System, events: seq<Event>, n: int) returns (m: int)
    requires Consistent(s, n)
    ensures Consistent(Run(s, events), m) && n <= m <= n + |events|
    decreases |events|
  {
    hide After, Consistent;
    if events == [] {
      m := n;
    } else {
      var k := EventKeepsHistory(s, events[0], n);
      m := RunKeepsHistory(After(s, events[0]), events[1..], k);
    }
  }

  /** Transactions overlap freely: of those begun at the same reading the first to finish is stored, and no other. */
  lemma FirstToFinishWins(s: System, n: nat, c: nat, d: nat, lost: bool)
    requires Consistent(s, n) && n < MAX_SEQUENCE && c != d
    ensures Run(s, [Begin(c), Begin(d), Finish(c, lost), Finish(d, false)]).file == Stored(n + 1)
    ensures Run(s, [Begin(c), Begin(d), Crash, Finish(c, false), Finish(d, false)]).file == Stored(n)
  {
    hide Stored, InsertNext, Run;
    MaxOfStored(n);
    InsertAfterRead(n, n);
    if n + 1 <= MAX_SEQUENCE {
      InsertAfterRead(n + 1, n);
    }
    var begun := After(After(s, Begin(c)), Begin(d));
    var first, second := [Finish(c, lost), Finish(d, false)], [Crash, Finish(c, false), Finish(d, false)];
    assert [Begin(c), Begin(d)] + first == [Begin(c), Begin(d), Finish(c, lost), Finish(d, false)];
    assert [Begin(c), Begin(d)] + second == [Begin(c), Begin(d), Crash, Finish(c, false), Finish(d, false)];
    RunOfTwo(s, Begin(c), Begin(d), first);
    RunOfTwo(s, Begin(c), Begin(d), second);
    assert first == first + [] && second == [Crash, Finish(c, false)] + [Finish(d, false)];
    RunOfTwo(begun, Finish(c, lost), Finish(d, false), []);
    RunOfTwo(begun, Crash, Finish(c, false), [Finish(d, false)]);
    RunOfOne(After(After(begun, Crash), Finish(c, false)), Finish(d, false));
    RunOfNone(After(After(begun, Finish(c, lost)), Finish(d, false)));
  }

  lemma RunOfTwo(s: System, a: Event, b: Event, rest: seq<Event>)
    ensures Run(s, [a, b] + rest) == Run(After(After(s, a), b), rest)
  {
    hide After;
    assert ([a, b] + rest)[1..] == [b] + rest;
    assert ([b] + rest)[1..] == rest;
  }

  lemma RunOfOne(s: System, a: Event)
    ensures Run(s, [a]) == After(s, a)
  {
    hide After;
    assert [a][1..] == [];
  }

  lemma RunOfNone(s: System)
    ensures Run(s, []) == s
  {
  }

  /** Whatever happened to a fresh file, later events keep every reading already there, unchanged. */
  lemma NothingIsLost(first: seq<Event>, more: seq<Event>, key: (string, int))
    requires key in Run(FRESH, first).file.readings
    ensures var early, late := Run(FRESH, first).file.readings, Run(Run(FRESH, first), more).file.readings;
      && key in late && late[key] == early[key]
      && key.0 == PORT_ID && 0 <= key.1 <= MAX_SEQUENCE
      && early[key].energyMilliWh == 100 * key.1 && early[key].second == key.1
  {
    hide Run;
    FreshConsistent();
    var n := RunKeepsHistory(FRESH, first, -1);
    var m := RunKeepsHistory(Run(FRESH, first), more, n);
  }

  lemma FreshConsistent()
    ensures Consistent(FRESH, -1)
  {
  }

  /** Two transactions that read the same maximum cannot both commit. */
  lemma OneOfTwoCommits(n: nat)
    requires n < MAX_SEQUENCE
    ensures InsertNext(InsertNext(Stored(n), n).0, n) == (Stored(n + 1), Some(ConstraintViolated))
  {
    hide InsertNext, Stored;
    InsertAfterRead(n, n);
    InsertAfterRead(n + 1, n);
  }

  // ---- the report ----

  datatype Measurement =
    Measurement(sequence: int, voltageMV: int, currentMA: int, powerW: int, energyWh: int, second: int)

  datatype Port = Port(id: string, mode: string, state: string, actualOutput: string, measurement: Measurement)

  function PortOf(p: PortRow, sequence: int, r: Reading): Port {
    Port(p.id, p.mode, p.state, p.actualOutput,
         Measurement(sequence, r.voltageMV, r.currentMA, r.powerW, r.energyMilliWh / 1000, r.second))
  }

  ghost function LastReport(p: PortRow, readings: Readings): seq<Port> {
    match MaxSequence(readings, p.id)
    case None => []
    case Some(m) => [PortOf(p, m, readings[(p.id, m)])]
  }

  /** Every port joined with its last reading. */
  ghost function Reports(ports: seq<PortRow>, readings: Readings): seq<Port> {
    if ports == [] then [] else Reports(ports[..|ports| - 1], readings) + LastReport(ports[|ports| - 1], readings)
  }

  function ReportAt(n: nat): Port {
    Port(PORT_ID, "simulator", "active", "closed", Measurement(n, 230000, 1565, 360, n / 10, n))
  }

  /** The report of n readings: the last one, with a tenth of a watt-hour per reading, rounded down. */
  lemma ReportOfHistory(n: nat)
    ensures Reports([SIM_PORT], History(n)) == [ReportAt(n)]
  {
    MaxOfHistory(n);
    assert [SIM_PORT][..0] == [];
    assert Reports([], History(n)) == [];
    assert n * 100 / 1000 == n / 10;
  }

  /** Of any port the last reading is reported, with whole watt-hours; a port without readings is left out. */
  lemma ReportExactly(ports: seq<PortRow>, p: PortRow, readings: Readings)
    ensures (forall m :: !IsMax(readings, p.id, m)) ==> Reports(ports + [p], readings) == Reports(ports, readings)
    ensures forall m :: IsMax(readings, p.id, m) ==>
      var r := readings[(p.id, m)];
      Reports(ports + [p], readings) == Reports(ports, readings)
        + [Port(p.id, p.mode, p.state, p.actualOutput,
                Measurement(m, r.voltageMV, r.currentMA, r.powerW, r.energyMilliWh / 1000, r.second))]
  {
    assert (ports + [p])[..|ports|] == ports;
    forall m | IsMax(readings, p.id, m) ensures MaxSequence(readings, p.id) == Some(m) {
      MaxIsUnique(readings, p.id, m, MaxSequence(readings, p.id).value);
    }
  }

  /** Over every run the reported energy is sequence/10 and never falls. */
  lemma ReportNeverFalls(first: seq<Event>, more: seq<Event>) returns (n: int, m: int)
    ensures -1 <= n <= m
    ensures var file := Run(FRESH, first).file;
      Reports(file.ports, file.readings) == if n == -1 then [] else [ReportAt(n)]
    ensures var file := Run(Run(FRESH, first), more).file;
      Reports(file.ports, file.readings) == if m == -1 then [] else [ReportAt(m)]
  {
    hide Run;
    FreshConsistent();
    n := RunKeepsHistory(FRESH, first, -1);
    m := RunKeepsHistory(Run(FRESH, first), more, n);
    if n >= 0 {
      ReportOfHistory(n);
    }
    if m >= 0 {
      ReportOfHistory(m);
    }
  }

  // ---- the operations on an open file ----

  type Int64 = x: int | -0x8000_0000_0000_0000 <= x < 0x8000_0000_0000_0000

  class Connection {
    var file: Database

    constructor (file: Database)
      ensures this.file == file
    {
      this.file := file;
    }

    /** The table's CHECK on its sequence column. */
    ghost predicate SequencesChecked()
      reads this
    {
      forall k: int :: (PORT_ID, k) in file.readings ==> 0 <= k <= MAX_SEQUENCE
    }

    /** Every history satisfies it. */
    lemma HistoryIsChecked(n: nat)
      requires n <= MAX_SEQUENCE && file == Stored(n)
      ensures SequencesChecked()
    {
    }

    /** And nothing outside the table's range does. */
    lemma CheckedExactly(k: int)
      requires SequencesChecked() && (PORT_ID, k) in file.readings
      ensures 0 <= k <= 315360000
    {
    }

    /** `initializeStore` */
    method InitializeStore(fault: OpenFault) returns (error: Option<StoreError>)
      modifies this
      ensures (file, error) == Initialize(old(file), fault)
    {
      if fault.IntegrityFails? {
        return Some(IntegrityCheckFailed);
      }
      if fault.BeginFails? {
        return Some(Unavailable);
      }
      var tx := file;
      if fault.VersionFails? {
        return Some(QueryFailed);
      }
      if tx.version == 0 {
        if fault.CountFails? {
          return Some(QueryFailed);
        }
        if tx.objects != 0 {
          return Some(UnrelatedDatabase);
        }
        var migrated := Migrate(tx);
        if fault.MigrationFails? || migrated.None? {
          return Some(MigrationFailed);
        }
        tx := migrated.value;
      } else if tx.version != 1 {
        return Some(UnsupportedVersion(tx.version));
      }
      if fault.ValidateFails? || !HasSeed(tx) {
        return Some(InvalidSimulatorDatabase);
      }
      if fault.CommitFails? {
        return Some(CommitFailed);
      }
      file := tx;
      return None;
    }

    /** The aggregate query, as a scan of the table. */
    method SelectMax(id: string) returns (r: Option<int>)
      ensures r == MaxSequence(file.readings, id)
    {
      r := None;
      var keys := file.readings.Keys;
      while keys != {}
        invariant keys <= file.readings.Keys
        invariant r.None? ==> forall k: int :: (id, k) in file.readings ==> (id, k) in keys
        invariant r.Some? ==> (id, r.value) in file.readings
        invariant r.Some? ==> forall k: int :: (id, k) in file.readings && (id, k) !in keys ==> k <= r.value
        decreases |keys|
      {
        var key :| key in keys;
        if key.0 == id && (r.None? || r.value < key.1) {
          r := Some(key.1);
        }
        keys := keys - {key};
      }
      if r.Some? {
        assert IsMax(file.readings, id, r.value);
      }
    }

    /** `appendReading` with no other connection in between; the 64-bit products it forms never overflow. */
    method AppendReading(fault: AppendFault) returns (error: Option<StoreError>)
      requires SequencesChecked()
      modifies this
      ensures SequencesChecked()
      ensures error.Some? ==> file == old(file)
      ensures error.None? ==>
        ReadPrevious(old(file)).Ok? && (file, error) == InsertNext(old(file), ReadPrevious(old(file)).value)
      ensures fault.NoAppendFault? && ReadPrevious(old(file)).Err? ==> error == Some(ReadPrevious(old(file)).error)
      ensures fault.NoAppendFault? && ReadPrevious(old(file)).Ok? ==>
                error == InsertNext(old(file), ReadPrevious(old(file)).value).1
    {
      if fault.AppendBeginFails? {
        return Some(Unavailable);
      }
      var maximum := SelectMax(PORT_ID);
      if fault.SelectFails? || maximum.None? {
        return Some(QueryFailed);
      }
      var previous: Int64 := maximum.value;
      if previous >= MAX_SEQUENCE {
        return Some(ReplayExhausted);
      }
      var sequence: Int64 := previous + 1;
      var nanoseconds: Int64 := sequence * 1_000_000_000;
      var energy: Int64 := sequence * 100;
      var row := Reading(230000, 1565, 360, energy, nanoseconds / 1_000_000_000);
      var inserted := InsertReading(file, PORT_ID, sequence, row);
      if fault.InsertFails? || inserted.None? {
        return Some(ConstraintViolated);
      }
      if fault.AppendCommitFails? {
        return Some(CommitFailed);
      }
      file := inserted.value;
      return None;
    }

    /** `readPorts`, over any file. */
    method ReadPorts() returns (r: Result<seq<Port>, StoreError>)
      ensures var all := Reports(file.ports, file.readings);
        r == if |all| == 1 then Ok(all) else Err(PortUnavailable)
      ensures forall n: nat :: file == Stored(n) ==> r == Ok([ReportAt(n)])
    {
      var ports: seq<Port> := [];
      for i := 0 to |file.ports|
        invariant ports == Reports(file.ports[..i], file.readings)
      {
        var p := file.ports[i];
        assert file.ports[..i + 1][..i] == file.ports[..i];
        var last := SelectMax(p.id);
        if last.Some? {
          ports := ports + [PortOf(p, last.value, file.readings[(p.id, last.value)])];
        }
      }
      assert file.ports[..|file.ports|] == file.ports;
      forall n: nat | file == Stored(n)
        ensures ports == [ReportAt(n)]
      {
        ReportOfHistory(n);
      }
      if |ports| != 1 {
        return Err(PortUnavailable);
      }
      return Ok(ports);
    }
  }
}
