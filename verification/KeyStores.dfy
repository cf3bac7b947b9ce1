/**
 The shared signing-key store (pkg/iam/key_store.go): one row per issuer and key id, and an
 append-only log of lifecycle events. Every process records a manifest here before using it.
 */
module KeyStores {
  import opened Options
  import opened KeyManifests

  datatype KeyRef = KeyRef(issuer: string, kid: string)
  datatype Row = Row(status: KeyStatus, version: nat, keyPath: string, notBefore: int, notAfter: int)
  datatype EventType = CreatedEvent | ActivatedEvent | RotationStartedEvent | RevokedEvent | ExpiredEvent
  datatype LogRow = LogRow(key: KeyRef, event: EventType)
  datatype Store = Store(rows: map<KeyRef, Row>, log: seq<LogRow>)

  function Lookup(rows: map<KeyRef, Row>, key: KeyRef): Option<Row> {
    if key in rows then Some(rows[key]) else None
  }

  /** The event written when a key takes a status. */
  function LifecycleEvent(status: KeyStatus): EventType {
    match status
    case Active => ActivatedEvent
    case Retiring => RotationStartedEvent
    case Revoked => RevokedEvent
    case Expired => ExpiredEvent
    case _ => CreatedEvent
  }

  /** The status a key has once the given event is its last one. */
  function StatusAfter(event: EventType): KeyStatus {
    match event
    case CreatedEvent => Pending
    case ActivatedEvent => Active
    case RotationStartedEvent => Retiring
    case RevokedEvent => Revoked
    case ExpiredEvent => Expired
  }

  // ---- one key --------------------------------------------------------------------------------

  /** The CHECK constraints of the signing_key_metadata table. */
  predicate RowAllowed(row: Row) {
    !row.status.Unrecognised? && row.version > 0 && row.notBefore < row.notAfter
  }

  predicate RowMatches(row: Row, entry: KeyEntry) {
    row.keyPath == entry.publicKeyPath && row.notBefore == entry.notBefore.instant
    && row.notAfter == entry.notAfter.instant
  }

  /** The row recordManifestKey leaves behind, or None when it fails. */
  function RecordKey(row: Option<Row>, entry: KeyEntry, generation: nat, stored: nat): Option<Row> {
    match row
    case None =>
      var created := Row(entry.status, generation, entry.publicKeyPath, entry.notBefore.instant,
                         entry.notAfter.instant);
      if (stored != 0 && generation <= stored) || !RowAllowed(created) then None else Some(created)
    case Some(was) =>
      if was.version > generation || !RowMatches(was, entry) || !ValidTransition(was.status, entry.status) then None
      else if was.version == generation then (if was.status == entry.status then row else None)
      else Some(was.(status := entry.status, version := generation, keyPath := entry.publicKeyPath))
  }

  /** The events recordManifestKey appends when it succeeds. */
  function NewEvents(row: Option<Row>, entry: KeyEntry, generation: nat): seq<EventType> {
    match row
    case None => [CreatedEvent] + (if entry.status == Pending then [] else [LifecycleEvent(entry.status)])
    case Some(was) =>
      if was.version == generation || was.status == entry.status then [] else [LifecycleEvent(entry.status)]
  }

  /** The events of one key, oldest first. */
  function History(log: seq<LogRow>, key: KeyRef): seq<EventType> {
    if log == [] then []
    else History(log[..|log|-1], key) + (if log[|log|-1].key == key then [log[|log|-1].event] else [])
  }

  /** The log once the given events of one key have been appended to it. */
  function Append(log: seq<LogRow>, key: KeyRef, events: seq<EventType>): (log': seq<LogRow>)
    ensures log <= log'
    decreases |events|
  {
    if events == [] then log else Append(log + [LogRow(key, events[0])], key, events[1..])
  }

  lemma {:induction false} HistoryOfAppend(log: seq<LogRow>, key: KeyRef, events: seq<EventType>, other: KeyRef)
    ensures History(Append(log, key, events), other) == History(log, other) + (if other == key then events else [])
    decreases |events|
  {
    if events == [] {
    } else {
      var longer := log + [LogRow(key, events[0])];
      assert longer[..|longer| - 1] == log;
      HistoryOfAppend(longer, key, events[1..], other);
      assert events == [events[0]] + events[1..];
    }
  }

  // ---- one manifest ---------------------------------------------------------------------------

  /** The highest version among an issuer's rows, or zero when it has none. */
  ghost predicate IsStoredGeneration(rows: map<KeyRef, Row>, issuer: string, g: nat) {
    && (forall key <- rows :: key.issuer == issuer ==> rows[key].version <= g)
    && (g == 0 || exists key :: key in rows && key.issuer == issuer && rows[key].version == g)
  }

  ghost function StoredGeneration(rows: map<KeyRef, Row>, issuer: string): (g: nat)
    ensures IsStoredGeneration(rows, issuer, g)
    decreases |rows|
  {
    if rows == map[] then 0
    else
      var key :| key in rows;
      var others := rows - {key};
      assert rows.Keys == others.Keys + {key};
      var g := StoredGeneration(others, issuer);
      if key.issuer == issuer && rows[key].version > g then rows[key].version else g
  }

  lemma StoredGenerationIsUnique(rows: map<KeyRef, Row>, issuer: string, g: nat)
    requires IsStoredGeneration(rows, issuer, g)
    ensures g == StoredGeneration(rows, issuer)
  {}

  ghost function RecordedRow(rows: map<KeyRef, Row>, m: Manifest, kid: string): Option<Row>
    requires kid in m.keys
  {
    RecordKey(Lookup(rows, KeyRef(m.issuer, kid)), m.keys[kid], m.generation, StoredGeneration(rows, m.issuer))
  }

  /** Whether RecordKeyManifest commits. */
  ghost predicate Accepts(rows: map<KeyRef, Row>, m: Manifest) {
    && StoredGeneration(rows, m.issuer) <= m.generation
    && forall kid <- m.keys :: RecordedRow(rows, m, kid).Some?
  }

  /** Whether a key is among the manifest keys recorded so far. */
  predicate Covers(m: Manifest, done: set<string>, key: KeyRef) {
    key.issuer == m.issuer && key.kid in done && key.kid in m.keys
  }

  /** The row of one key after the keys in done, visited in any order, have been recorded. */
  ghost predicate RowAfter(rows: map<KeyRef, Row>, m: Manifest,
                           done: set<string>, rows': map<KeyRef, Row>, key: KeyRef) {
    Lookup(rows', key) == if Covers(m, done, key) then RecordedRow(rows, m, key.kid) else Lookup(rows, key)
  }

  /** The events of one key after the keys in done have been recorded. */
  ghost predicate HistoryAfter(s: Store, m: Manifest, done: set<string>, log': seq<LogRow>, key: KeyRef) {
    History(log', key) == History(s.log, key) +
      if Covers(m, done, key) then NewEvents(Lookup(s.rows, key), m.keys[key.kid], m.generation) else []
  }

  /** The store after the keys in done have been recorded; no log row is rewritten. */
  ghost predicate After(s: Store, m: Manifest, done: set<string>, s': Store) {
    && (forall key :: RowAfter(s.rows, m, done, s'.rows, key))
    && s.log <= s'.log
    && (forall key :: HistoryAfter(s, m, done, s'.log, key))
  }

  /** One committed RecordKeyManifest. */
  ghost predicate Recorded(s: Store, m: Manifest, s': Store) {
    && Accepts(s.rows, m)
    && After(s, m, m.keys.Keys, s')
  }

  class IAMDBStore {
    var rows: map<KeyRef, Row>
    var log: seq<LogRow>

    constructor ()
      ensures rows == map[] && log == []
    {
      rows, log := map[], [];
    }

    ghost function State(): Store
      reads this
    {
      Store(rows, log)
    }

    /** SELECT COALESCE(MAX(version), 0) for one issuer. */
    method MaxVersion(issuer: string) returns (g: nat)
      ensures g == StoredGeneration(rows, issuer)
    {
      g := 0;
      var remaining := rows.Keys;
      while remaining != {}
        invariant remaining <= rows.Keys
        invariant forall key :: key in rows && key !in remaining && key.issuer == issuer ==> rows[key].version <= g
        invariant g == 0 || exists key :: key in rows && key.issuer == issuer && rows[key].version == g
        decreases |remaining|
      {
        var key :| key in remaining;
        if key.issuer == issuer && rows[key].version > g { g := rows[key].version; }
        remaining := remaining - {key};
      }
      StoredGenerationIsUnique(rows, issuer, g);
    }

    /** One transaction: all keys are recorded, or nothing is. */
    method RecordKeyManifest(m: Manifest) returns (ok: bool)
      modifies this
      ensures ok == Accepts(old(rows), m)
      ensures if ok then Recorded(old(State()), m, State()) else State() == old(State())
    {
      var stored := MaxVersion(m.issuer);
      if stored > m.generation { return false; }
      var txRows, txLog, remaining := rows, log, m.keys.Keys;
      while remaining != {}
        invariant remaining <= m.keys.Keys
        invariant rows == old(rows) && log == old(log)
        invariant forall kid <- m.keys.Keys - remaining :: RecordedRow(rows, m, kid).Some?
        invariant After(State(), m, m.keys.Keys - remaining, Store(txRows, txLog))
        decreases |remaining|
      {
        var kid :| kid in remaining;
        var key, entry := KeyRef(m.issuer, kid), m.keys[kid];
        var row := Lookup(txRows, key);
        assert RowAfter(rows, m, m.keys.Keys - remaining, txRows, key);
        var next := RecordKey(row, entry, m.generation, stored);
        if next == None { return false; }
        OneMoreKey(State(), m, m.keys.Keys - remaining, kid, Store(txRows, txLog));
        txRows, txLog := txRows[key := next.value], Append(txLog, key, NewEvents(row, entry, m.generation));
        assert m.keys.Keys - (remaining - {kid}) == m.keys.Keys - remaining + {kid};
        remaining := remaining - {kid};
      }
      rows, log := txRows, txLog;
      assert m.keys.Keys - remaining == m.keys.Keys;
      return true;
    }
  }

  lemma OneMoreKey(s: Store, m: Manifest, done: set<string>, kid: string, tx: Store)
    requires kid in m.keys && kid !in done && After(s, m, done, tx)
    requires RecordedRow(s.rows, m, kid).Some?
    ensures var key := KeyRef(m.issuer, kid);
            After(s, m, done + {kid},
              Store(tx.rows[key := RecordedRow(s.rows, m, kid).value],
                    Append(tx.log, key, NewEvents(Lookup(s.rows, key), m.keys[kid], m.generation))))
  {
    var key := KeyRef(m.issuer, kid);
    var rows := tx.rows[key := RecordedRow(s.rows, m, kid).value];
    var events := NewEvents(Lookup(s.rows, key), m.keys[kid], m.generation);
    forall other ensures RowAfter(s.rows, m, done + {kid}, rows, other) {
      assert RowAfter(s.rows, m, done, tx.rows, other);
    }
    forall other ensures HistoryAfter(s, m, done + {kid}, Append(tx.log, key, events), other) {
      assert HistoryAfter(s, m, done, tx.log, other);
      HistoryOfAppend(tx.log, key, events, other);
    }
  }

  // ---- runs of many processes -----------------------------------------------------------------

  /** One RecordKeyManifest call by some process, committed or rolled back. */
  ghost predicate StoreStep(s: Store, s': Store) {
    s' == s || exists m :: Recorded(s, m, s')
  }

  ghost predicate StepsAt(run: seq<Store>, i: int)
    requires 0 <= i < |run| - 1
  {
    StoreStep(run[i], run[i + 1])
  }

  ghost predicate IsStoreRun(run: seq<Store>) {
    forall i :: 0 <= i < |run| - 1 ==> StepsAt(run, i)
  }

  /** What one row may become while other rows come and go. */
  ghost predicate RowAdvanced(s: Store, s': Store, key: KeyRef) {
    key in s.rows ==>
      && key in s'.rows
      && Forward(s.rows[key].status, s'.rows[key].status)
      && s'.rows[key].keyPath == s.rows[key].keyPath
      && s'.rows[key].notBefore == s.rows[key].notBefore
      && s'.rows[key].notAfter == s.rows[key].notAfter
      && s.rows[key].version <= s'.rows[key].version
  }

  ghost predicate Advanced(s: Store, s': Store) {
    && (forall key :: RowAdvanced(s, s', key))
    && (forall issuer :: StoredGeneration(s.rows, issuer) <= StoredGeneration(s'.rows, issuer))
    && s.log <= s'.log
  }

  /** A key with a row has the status its last lifecycle event tells; one without has no events. */
  ghost predicate LogTellsStatus(s: Store, key: KeyRef) {
    var history := History(s.log, key);
    if key in s.rows then history != [] && StatusAfter(history[|history| - 1]) == s.rows[key].status
    else history == []
  }

  lemma RowStepAdvances(s: Store, m: Manifest, s': Store, key: KeyRef)
    requires Recorded(s, m, s')
    ensures RowAdvanced(s, s', key)
  {
    assert RowAfter(s.rows, m, m.keys.Keys, s'.rows, key);
    if key in s.rows && Covers(m, m.keys.Keys, key) {
      assert key == KeyRef(m.issuer, key.kid);
      ForwardIsClosure(s.rows[key].status, m.keys[key.kid].status);
    }
  }

  lemma GenerationGrows(s: Store, s': Store, issuer: string)
    requires forall key :: RowAdvanced(s, s', key)
    ensures StoredGeneration(s.rows, issuer) <= StoredGeneration(s'.rows, issuer)
  {
    var g := StoredGeneration(s.rows, issuer);
    if g > 0 {
      var key :| key in s.rows && key.issuer == issuer && s.rows[key].version == g;
      assert RowAdvanced(s, s', key);
    }
  }

  lemma StepAdvances(s: Store, s': Store)
    requires StoreStep(s, s')
    ensures Advanced(s, s')
  {
    if s' != s {
      var m :| Recorded(s, m, s');
      forall key ensures RowAdvanced(s, s', key) { RowStepAdvances(s, m, s', key); }
    }
    forall issuer ensures StoredGeneration(s.rows, issuer) <= StoredGeneration(s'.rows, issuer) {
      GenerationGrows(s, s', issuer);
    }
  }

  lemma RowAdvancedTransitive(a: Store, b: Store, c: Store, key: KeyRef)
    requires RowAdvanced(a, b, key) && RowAdvanced(b, c, key)
    ensures RowAdvanced(a, c, key)
  {
    if key in a.rows {
      ForwardIsClosure(a.rows[key].status, c.rows[key].status);
    }
  }

  /** Over every run of every number of processes: the stored generation never decreases, each
      key's status only moves forward with its metadata unchanged, and the log only grows. */
  lemma {:induction false} StoreOnlyAdvances(run: seq<Store>, i: nat, j: nat)
    requires IsStoreRun(run) && i <= j < |run|
    ensures Advanced(run[i], run[j])
    decreases j
  {
    if i < j {
      StoreOnlyAdvances(run, i, j - 1);
      assert StepsAt(run, j - 1);
      StepAdvances(run[j - 1], run[j]);
      forall key ensures RowAdvanced(run[i], run[j], key) {
        RowAdvancedTransitive(run[i], run[j - 1], run[j], key);
      }
      forall issuer ensures StoredGeneration(run[i].rows, issuer) <= StoredGeneration(run[j].rows, issuer) {
        assert StoredGeneration(run[i].rows, issuer) <= StoredGeneration(run[j - 1].rows, issuer);
      }
    }
  }

  /** Over every run that starts with the log and the rows in agreement (an empty store does), the
      last lifecycle event of a key determines its current status. */
  lemma {:induction false} LastEventTellsStatus(run: seq<Store>, j: nat, key: KeyRef)
    requires IsStoreRun(run) && j < |run|
    requires LogTellsStatus(run[0], key)
    ensures LogTellsStatus(run[j], key)
  {
    if j > 0 {
      LastEventTellsStatus(run, j - 1, key);
      assert StepsAt(run, j - 1);
      if run[j] != run[j - 1] {
        var m :| Recorded(run[j - 1], m, run[j]);
        RecordingKeepsLog(run[j - 1], m, run[j], key);
      }
    }
  }

  lemma RecordingKeepsLog(s: Store, m: Manifest, s': Store, key: KeyRef)
    requires Recorded(s, m, s') && LogTellsStatus(s, key)
    ensures LogTellsStatus(s', key)
  {
    assert RowAfter(s.rows, m, m.keys.Keys, s'.rows, key) && HistoryAfter(s, m, m.keys.Keys, s'.log, key);
    if Covers(m, m.keys.Keys, key) {
      assert key == KeyRef(m.issuer, key.kid) && RecordedRow(s.rows, m, key.kid).Some?;
    }
  }

  /** Recording the manifest just recorded again is accepted and writes nothing: no row changes
      and no event is appended. */
  lemma RecordingIsIdempotent(s: Store, m: Manifest, s': Store)
    requires Recorded(s, m, s')
    ensures Accepts(s'.rows, m)
    ensures forall s'' :: Recorded(s', m, s'') ==> s'' == s'
  {
    forall key <- s'.rows | key.issuer == m.issuer ensures s'.rows[key].version <= m.generation {
      assert RowAfter(s.rows, m, m.keys.Keys, s'.rows, key);
      if Covers(m, m.keys.Keys, key) { assert RecordedRow(s.rows, m, key.kid).Some?; }
    }
    forall kid <- m.keys ensures Settled(s', m, kid) { RecordingSettles(s, m, s', kid); }
    forall s'' | Recorded(s', m, s'') ensures s'' == s' {
      forall key
        ensures Lookup(s''.rows, key) == Lookup(s'.rows, key) && History(s''.log, key) == History(s'.log, key)
      {
        assert RowAfter(s'.rows, m, m.keys.Keys, s''.rows, key) && HistoryAfter(s', m, m.keys.Keys, s''.log, key);
        if Covers(m, m.keys.Keys, key) { assert Settled(s', m, key.kid); }
      }
      LookupIsRows(s''.rows, s'.rows);
      SameHistoriesSameLog(s'.log, s''.log);
    }
  }

  lemma {:induction false} HistoryGrows(log: seq<LogRow>, log': seq<LogRow>, key: KeyRef)
    requires log <= log'
    ensures |History(log, key)| <= |History(log', key)|
  {
    if |log| < |log'| { HistoryGrows(log, log'[..|log'| - 1], key); } else { assert log == log'; }
  }

  /** A log that grew while no key's history did has not grown. */
  lemma SameHistoriesSameLog(log: seq<LogRow>, log': seq<LogRow>)
    requires log <= log' && forall key :: History(log', key) == History(log, key)
    ensures log' == log
  {
    if |log| < |log'| {
      var key := log'[|log'| - 1].key;
      assert |History(log', key)| == |History(log, key)|;
      HistoryGrows(log, log'[..|log'| - 1], key);
    }
  }

  // ---- what is accepted -----------------------------------------------------------------------

  /** A key the store has not seen: its first row must satisfy the table's constraints. */
  predicate MayAppear(entry: KeyEntry) {
    !entry.status.Unrecognised? && entry.notBefore.instant < entry.notAfter.instant
  }

  /** A key the store knows: same file, same window, and an allowed status change. */
  predicate MayMove(row: Row, entry: KeyEntry) {
    && row.keyPath == entry.publicKeyPath && row.notBefore == entry.notBefore.instant
    && row.notAfter == entry.notAfter.instant && ValidTransition(row.status, entry.status)
  }

  ghost predicate EntryAccepted(rows: map<KeyRef, Row>, m: Manifest, kid: string)
    requires kid in m.keys
  {
    var key := KeyRef(m.issuer, kid);
    if key in rows then MayMove(rows[key], m.keys[kid]) else MayAppear(m.keys[kid])
  }

  /** A manifest newer than everything stored for its issuer is accepted exactly when each known key
      keeps its file and window and makes an allowed status change, and each new key is well-formed. */
  lemma AcceptsNewerExactlyWhen(rows: map<KeyRef, Row>, m: Manifest)
    requires StoredGeneration(rows, m.issuer) < m.generation
    ensures Accepts(rows, m) <==> forall kid <- m.keys :: EntryAccepted(rows, m, kid)
  {
    forall kid <- m.keys ensures RecordedRow(rows, m, kid).Some? <==> EntryAccepted(rows, m, kid) {
      assert KeyRef(m.issuer, kid) in rows ==> rows[KeyRef(m.issuer, kid)].version < m.generation;
    }
  }

  /** A manifest of the stored generation may bring no new key, and may change no key that generation
      has already recorded. */
  lemma AcceptsSameExactlyWhen(rows: map<KeyRef, Row>, m: Manifest)
    requires StoredGeneration(rows, m.issuer) == m.generation
    ensures Accepts(rows, m) <==> forall kid <- m.keys ::
              var key := KeyRef(m.issuer, kid);
              && key in rows && MayMove(rows[key], m.keys[kid])
              && (rows[key].version == m.generation ==> rows[key].status == m.keys[kid].status)
  {
    forall kid <- m.keys
      ensures var key := KeyRef(m.issuer, kid); RecordedRow(rows, m, kid).Some? <==>
                && key in rows && MayMove(rows[key], m.keys[kid])
                && (rows[key].version == m.generation ==> rows[key].status == m.keys[kid].status)
    {
      assert KeyRef(m.issuer, kid) in rows ==> rows[KeyRef(m.issuer, kid)].version <= m.generation;
    }
  }

  /** An older manifest is never accepted. */
  lemma OlderIsRefused(rows: map<KeyRef, Row>, m: Manifest)
    requires m.generation < StoredGeneration(rows, m.issuer)
    ensures !Accepts(rows, m)
  {}

  /** A recording leaves the rows and the events of all other keys alone. */
  lemma RecordingLeavesOthers(s: Store, m: Manifest, s': Store, key: KeyRef)
    requires Recorded(s, m, s') && (key.issuer != m.issuer || key.kid !in m.keys)
    ensures Lookup(s'.rows, key) == Lookup(s.rows, key) && History(s'.log, key) == History(s.log, key)
  {
    assert RowAfter(s.rows, m, m.keys.Keys, s'.rows, key) && HistoryAfter(s, m, m.keys.Keys, s'.log, key);
  }

  /** A key's events: created once and first, then one for each change of status, always forward, and
      never straight from active to expired. */
  ghost predicate SpellsLifecycle(s: Store, key: KeyRef) {
    var history := History(s.log, key);
    && LogTellsStatus(s, key)
    && (key in s.rows ==> history[0] == CreatedEvent)
    && forall j, k :: 0 <= j < k < |history| ==>
         && history[j] != history[k] && Forward(StatusAfter(history[j]), StatusAfter(history[k]))
         && !(k == j + 1 && history[j] == ActivatedEvent && history[k] == ExpiredEvent)
  }

  lemma RecordingSpells(s: Store, m: Manifest, s': Store, key: KeyRef)
    requires Recorded(s, m, s') && SpellsLifecycle(s, key)
    ensures SpellsLifecycle(s', key)
  {
    RecordingKeepsLog(s, m, s', key);
    assert RowAfter(s.rows, m, m.keys.Keys, s'.rows, key) && HistoryAfter(s, m, m.keys.Keys, s'.log, key);
    var history, history' := History(s.log, key), History(s'.log, key);
    if key in s.rows && history' != history {
      assert key == KeyRef(m.issuer, key.kid) && RecordedRow(s.rows, m, key.kid).Some?;
      var event := LifecycleEvent(m.keys[key.kid].status);
      assert history' == history + [event];
      forall j | 0 <= j < |history|
        ensures history[j] != event && Forward(StatusAfter(history[j]), StatusAfter(event))
        ensures !(|history| == j + 1 && history[j] == ActivatedEvent && event == ExpiredEvent)
      {
        NewEventIsAhead(history, j, s.rows[key].status, m.keys[key.kid].status);
      }
    } else if Covers(m, m.keys.Keys, key) {
      assert key == KeyRef(m.issuer, key.kid) && RecordedRow(s.rows, m, key.kid).Some?;
    }
  }

  lemma NewEventIsAhead(history: seq<EventType>, j: nat, status: KeyStatus, next: KeyStatus)
    requires j < |history| && StatusAfter(history[|history| - 1]) == status
    requires j < |history| - 1 ==> Forward(StatusAfter(history[j]), status)
    requires ValidTransition(status, next) && status != next
    ensures history[j] != LifecycleEvent(next) && Forward(StatusAfter(history[j]), StatusAfter(LifecycleEvent(next)))
    ensures j == |history| - 1 ==> !(history[j] == ActivatedEvent && LifecycleEvent(next) == ExpiredEvent)
  {
    ForwardIsClosure(status, next);
    ForwardIsClosure(StatusAfter(history[j]), next);
  }

  /** Over every run that starts so (an empty store does), each key's events spell its lifecycle. */
  lemma {:induction false} HistorySpellsLifecycle(run: seq<Store>, j: nat, key: KeyRef)
    requires IsStoreRun(run) && j < |run| && SpellsLifecycle(run[0], key)
    ensures SpellsLifecycle(run[j], key)
  {
    if j > 0 {
      HistorySpellsLifecycle(run, j - 1, key);
      assert StepsAt(run, j - 1);
      if run[j] != run[j - 1] {
        var m :| Recorded(run[j - 1], m, run[j]);
        RecordingSpells(run[j - 1], m, run[j], key);
      }
    }
  }

  // ---- recording twice ------------------------------------------------------------------------

  /** Recording this key of the manifest once more would change nothing. */
  ghost predicate Settled(s: Store, m: Manifest, kid: string)
    requires kid in m.keys
  {
    var row := Lookup(s.rows, KeyRef(m.issuer, kid));
    && row.Some? && RecordedRow(s.rows, m, kid) == row
    && NewEvents(row, m.keys[kid], m.generation) == []
  }

  lemma RecordingSettles(s: Store, m: Manifest, s': Store, kid: string)
    requires Recorded(s, m, s') && kid in m.keys
    ensures var key, entry := KeyRef(m.issuer, kid), m.keys[kid];
      && key in s'.rows
      && s'.rows[key] == Row(entry.status, m.generation, entry.publicKeyPath,
                             entry.notBefore.instant, entry.notAfter.instant)
    ensures Settled(s', m, kid)
  {
    assert RowAfter(s.rows, m, m.keys.Keys, s'.rows, KeyRef(m.issuer, kid));
    assert RecordedRow(s.rows, m, kid).Some?;
  }

  lemma LookupIsRows(a: map<KeyRef, Row>, b: map<KeyRef, Row>)
    requires forall key :: Lookup(a, key) == Lookup(b, key)
    ensures a == b
  {
    forall key ensures key in a <==> key in b { assert Lookup(a, key) == Lookup(b, key); }
    forall key <- a ensures a[key] == b[key] { assert Lookup(a, key) == Lookup(b, key); }
  }
}
