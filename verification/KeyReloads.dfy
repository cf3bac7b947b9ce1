/**
 The reloading key set (pkg/iam/key_manifest.go): one process polls a manifest, checks it against
 its last good snapshot, records it in the shared store and then swaps the snapshot. The main
 results are about whole runs of reloads, clock ticks and other processes' recordings.
 */
module KeyReloads {
  import opened Options
  import opened Texts
  import opened KeyManifests
  import opened KeyStores

  /** What a reload finds on disk: a manifest that decodes, and the P-256 keys by path. A file that
      is missing, malformed, too widely writable or not a P-256 key is absent here. */
  datatype KeyFiles = KeyFiles(manifest: Option<Manifest>,
                               publicKeys: map<string, PublicKey>, privateKey: Option<PrivateKey>)

  datatype Config = Config(issuer: string, signs: bool, records: bool)

  datatype Snapshot = Snapshot(manifest: Manifest, publicKeys: map<string, PublicKey>, privateKey: Option<PrivateKey>)

  /** The result of examining the files: an error, the same content again, or a snapshot to record. */
  datatype Verdict = Refused | Unchanged | Candidate(snapshot: Snapshot)

  // ---- one reload -----------------------------------------------------------------------------

  predicate KeysReadable(m: Manifest, files: KeyFiles) {
    forall kid <- m.keys :: m.keys[kid].publicKeyPath in files.publicKeys
  }

  function PublicKeysOf(m: Manifest, files: KeyFiles): map<string, PublicKey>
    requires KeysReadable(m, files)
  {
    map kid | kid in m.keys :: files.publicKeys[m.keys[kid].publicKeyPath]
  }

  /** Whether the private key on disk is the one of the manifest's active key. */
  predicate PrivateKeyFits(m: Manifest, files: KeyFiles)
    requires KeysReadable(m, files) && m.activeKeyId in m.keys
  {
    files.privateKey.Some? && files.privateKey.value.publicKey == PublicKeysOf(m, files)[m.activeKeyId]
  }

  function Examine(current: Option<Snapshot>, files: KeyFiles, config: Config, now: int): Verdict {
    if files.manifest.None? || !Loadable(files.manifest.value, config.issuer, now) then Refused
    else
      var m := files.manifest.value;
      if current.Some? && m.generation < current.value.manifest.generation then Refused
      else if current.Some? && m.generation == current.value.manifest.generation then
        if m == current.value.manifest then Unchanged else Refused
      else if current.Some? && !MayReplace(current.value.manifest, m) then Refused
      else if !KeysReadable(m, files) then Refused
      else if config.signs && !PrivateKeyFits(m, files) then Refused
      else Candidate(Snapshot(m, PublicKeysOf(m, files), if config.signs then files.privateKey else None))
  }

  function SigningKeyAt(snapshot: Option<Snapshot>, now: int): Option<(string, PrivateKey)> {
    if snapshot.None? || snapshot.value.privateKey.None? then None
    else
      var m := snapshot.value.manifest;
      if m.activeKeyId !in m.keys then None
      else
        var entry := m.keys[m.activeKeyId];
        if entry.status != Active || now < entry.notBefore.instant || !(now < entry.notAfter.instant) then None
        else Some((m.activeKeyId, snapshot.value.privateKey.value))
  }

  function VerificationKeyAt(snapshot: Option<Snapshot>, kid: string, now: int): Option<PublicKey> {
    if snapshot.None? || kid !in snapshot.value.manifest.keys || kid !in snapshot.value.publicKeys then None
    else if !snapshot.value.manifest.keys[kid].AcceptedAt(now) then None
    else Some(snapshot.value.publicKeys[kid])
  }

  class ReloadingKeySet {
    const config: Config
    const recorder: IAMDBStore
    var snapshot: Option<Snapshot>
    var successes: nat
    var failures: nat

    constructor (config: Config, recorder: IAMDBStore)
      ensures this.config == config && this.recorder == recorder
      ensures snapshot == None && successes == 0 && failures == 0
    {
      this.config, this.recorder := config, recorder;
      snapshot, successes, failures := None, 0, 0;
    }

    /** A refused reload counts a failure and keeps the last good snapshot; the same content again
        changes nothing; a candidate replaces the snapshot only once it is recorded. */
    method Reload(files: KeyFiles, now: int) returns (ok: bool)
      modifies this, recorder
      ensures var verdict := Examine(old(snapshot), files, config, now);
        match verdict
        case Refused => !ok && snapshot == old(snapshot) && recorder.State() == old(recorder.State())
                        && successes == old(successes) && failures == old(failures) + 1
        case Unchanged => ok && snapshot == old(snapshot) && recorder.State() == old(recorder.State())
                          && successes == old(successes) && failures == old(failures)
        case Candidate(c) =>
          && ok == (config.records ==> Accepts(old(recorder.rows), c.manifest))
          && (if ok && config.records then Recorded(old(recorder.State()), c.manifest, recorder.State())
              else recorder.State() == old(recorder.State()))
          && snapshot == (if ok then Some(c) else old(snapshot))
          && successes == old(successes) + (if ok then 1 else 0)
          && failures == old(failures) + (if ok then 0 else 1)
    {
      var verdict := ExamineFiles(snapshot, files, config, now);
      if verdict.Refused? { failures := failures + 1; return false; }
      if verdict.Unchanged? { return true; }
      if config.records {
        var recorded := recorder.RecordKeyManifest(verdict.snapshot.manifest);
        if !recorded { failures := failures + 1; return false; }
      }
      snapshot := Some(verdict.snapshot);
      successes := successes + 1;
      return true;
    }
  }

  /** The part of Reload before anything is recorded. */
  method ExamineFiles(current: Option<Snapshot>, files: KeyFiles, config: Config, now: int) returns (verdict: Verdict)
    ensures verdict == Examine(current, files, config, now)
  {
    if files.manifest == None { return Refused; }
    var m := files.manifest.value;
    var loadable := CheckManifest(m, config.issuer, now);
    if !loadable { return Refused; }
    if current.Some? {
      if m.generation < current.value.manifest.generation { return Refused; }
      if m.generation == current.value.manifest.generation {
        return if m == current.value.manifest then Unchanged else Refused;
      }
      var allowed := CheckTransition(current.value.manifest, m);
      if !allowed { return Refused; }
    }
    var readable, publicKeys := ReadPublicKeys(m, files);
    if !readable { return Refused; }
    var privateKey: Option<PrivateKey> := None;
    if config.signs {
      privateKey := files.privateKey;
      if privateKey == None || privateKey.value.publicKey != publicKeys[m.activeKeyId] { return Refused; }
    }
    return Candidate(Snapshot(m, publicKeys, privateKey));
  }

  /** Reads the public key files in any order, stopping at the first that fails. */
  method ReadPublicKeys(m: Manifest, files: KeyFiles) returns (ok: bool, publicKeys: map<string, PublicKey>)
    ensures ok == KeysReadable(m, files)
    ensures ok ==> publicKeys == PublicKeysOf(m, files)
  {
    publicKeys := map[];
    var remaining := m.keys.Keys;
    while remaining != {}
      invariant remaining <= m.keys.Keys
      invariant publicKeys.Keys == m.keys.Keys - remaining
      invariant forall kid <- publicKeys ::
                  m.keys[kid].publicKeyPath in files.publicKeys
                  && publicKeys[kid] == files.publicKeys[m.keys[kid].publicKeyPath]
      decreases |remaining|
    {
      var kid :| kid in remaining;
      if m.keys[kid].publicKeyPath !in files.publicKeys { return false, map[]; }
      publicKeys := publicKeys[kid := files.publicKeys[m.keys[kid].publicKeyPath]];
      remaining := remaining - {kid};
    }
    return true, publicKeys;
  }

  // ---- runs -----------------------------------------------------------------------------------

  /** The clock, the shared store, and the snapshot of one process. */
  datatype World = World(now: int, store: Store, snapshot: Option<Snapshot>)

  ghost predicate Ticks(w: World, w': World) {
    w.now <= w'.now && w' == w.(now := w'.now)
  }

  /** Another process records some manifest, of this issuer or another. */
  ghost predicate OthersRecord(w: World, w': World) {
    StoreStep(w.store, w'.store) && w' == w.(store := w'.store)
  }

  /** This process reloads; the contract of ReloadingKeySet.Reload. */
  ghost predicate Reloads(config: Config, files: KeyFiles, w: World, w': World) {
    match Examine(w.snapshot, files, config, w.now)
    case Refused => w' == w
    case Unchanged => w' == w
    case Candidate(c) =>
      if config.records && !Accepts(w.store.rows, c.manifest) then w' == w
      else
        && w' == w.(store := w'.store, snapshot := Some(c))
        && if config.records then Recorded(w.store, c.manifest, w'.store) else w'.store == w.store
  }

  ghost predicate WorldStep(config: Config, w: World, w': World) {
    Ticks(w, w') || OthersRecord(w, w') || exists files :: Reloads(config, files, w, w')
  }

  ghost predicate StepsAt(config: Config, run: seq<World>, i: int)
    requires 0 <= i < |run| - 1
  {
    WorldStep(config, run[i], run[i + 1])
  }

  /** A run starts with any shared store and no snapshot. */
  ghost predicate IsRun(config: Config, run: seq<World>) {
    && (|run| > 0 ==> run[0].snapshot == None)
    && forall i :: 0 <= i < |run| - 1 ==> StepsAt(config, run, i)
  }

  /** Whether a token signed under kid is accepted right now. */
  predicate Accepted(w: World, kid: string) {
    VerificationKeyAt(w.snapshot, kid, w.now).Some?
  }

  function EntryOf(w: World, kid: string): Option<KeyEntry> {
    if w.snapshot.Some? && kid in w.snapshot.value.manifest.keys
    then Some(w.snapshot.value.manifest.keys[kid]) else None
  }

  /** A step either leaves the snapshot alone or installs an examined candidate at the same instant. */
  ghost predicate Installs(config: Config, w: World, w': World, c: Snapshot) {
    && w'.snapshot == Some(c) && w'.now == w.now
    && Loadable(c.manifest, config.issuer, w.now)
    && (w.snapshot.Some? ==>
          && MayReplace(w.snapshot.value.manifest, c.manifest)
          && w.snapshot.value.manifest.generation < c.manifest.generation)
    && (c.privateKey.Some? <==> config.signs)
    && c.publicKeys.Keys == c.manifest.keys.Keys
    && (c.privateKey.Some? ==> c.privateKey.value.publicKey == c.publicKeys[c.manifest.activeKeyId])
    && (config.records ==> Recorded(w.store, c.manifest, w'.store))
  }

  lemma StepShape(config: Config, w: World, w': World)
    requires WorldStep(config, w, w')
    ensures w.now <= w'.now
    ensures config.records ==> StoreStep(w.store, w'.store)
    ensures w'.snapshot == w.snapshot || exists c :: Installs(config, w, w', c)
  {
    if !Ticks(w, w') && !OthersRecord(w, w') {
      var files :| Reloads(config, files, w, w');
      if w' != w {
        var c := Examine(w.snapshot, files, config, w.now).snapshot;
        assert Installs(config, w, w', c);
      }
    }
  }

  lemma {:induction false} TimeAdvances(config: Config, run: seq<World>, i: nat, j: nat)
    requires IsRun(config, run) && i <= j < |run|
    ensures run[i].now <= run[j].now
    decreases j
  {
    if i < j {
      TimeAdvances(config, run, i, j - 1);
      assert StepsAt(config, run, j - 1);
      StepShape(config, run[j - 1], run[j]);
    }
  }

  /** What every reachable snapshot satisfies: it was loadable when installed. */
  ghost predicate Sound(config: Config, w: World) {
    w.snapshot.Some? ==>
      var c := w.snapshot.value;
      && c.manifest.issuer == config.issuer
      && c.publicKeys.Keys == c.manifest.keys.Keys
      && c.manifest.activeKeyId in c.manifest.keys && c.manifest.keys[c.manifest.activeKeyId].status == Active
      && 0 < c.manifest.generation <= MAX_INT64 && 0 < |c.manifest.keys| <= 64
      && (c.privateKey.Some? <==> config.signs)
      && (c.privateKey.Some? ==> c.privateKey.value.publicKey == c.publicKeys[c.manifest.activeKeyId])
      && forall kid <- c.manifest.keys ::
           c.manifest.keys[kid].status in {Active, Retiring} ==> c.manifest.keys[kid].notBefore.instant <= w.now
  }

  lemma StepKeepsSound(config: Config, w: World, w': World)
    requires Sound(config, w) && WorldStep(config, w, w')
    ensures Sound(config, w')
  {
    StepShape(config, w, w');
    if w'.snapshot != w.snapshot {
      var c :| Installs(config, w, w', c);
      assert forall kid <- c.manifest.keys :: ValidEntry(c.manifest, kid, w.now);
    }
  }

  lemma {:induction false} RunIsSound(config: Config, run: seq<World>, i: nat)
    requires IsRun(config, run) && i < |run|
    ensures Sound(config, run[i])
  {
    if i > 0 {
      RunIsSound(config, run, i - 1);
      assert StepsAt(config, run, i - 1);
      StepKeepsSound(config, run[i - 1], run[i]);
    }
  }

  /** In every run, whatever CurrentSigningKey returns is accepted by VerificationKey at that
      instant, and the public key it returns is the signing key's own. */
  lemma SigningKeyIsAccepted(config: Config, run: seq<World>, i: nat)
    requires IsRun(config, run) && i < |run|
    ensures var signing := SigningKeyAt(run[i].snapshot, run[i].now);
            signing.Some? ==>
              VerificationKeyAt(run[i].snapshot, signing.value.0, run[i].now) == Some(signing.value.1.publicKey)
  {
    RunIsSound(config, run, i);
  }

  /** In every run, a key set that signs has a signing key exactly while its snapshot's active key is
      in its window, and it is that key. */
  lemma SigningExactlyWhen(config: Config, run: seq<World>, i: nat)
    requires IsRun(config, run) && i < |run| && run[i].snapshot.Some?
    ensures var s, signing := run[i].snapshot.value, SigningKeyAt(run[i].snapshot, run[i].now);
      && s.manifest.activeKeyId in s.manifest.keys
      && (signing.Some? <==> config.signs && run[i].now < s.manifest.keys[s.manifest.activeKeyId].notAfter.instant)
      && (signing.Some? ==> signing.value.0 == s.manifest.activeKeyId && Some(signing.value.1) == s.privateKey)
  {
    RunIsSound(config, run, i);
  }

  /** In every run, a key id is accepted exactly while the snapshot lists it as active or retiring and
      its window has not ended, and it verifies with the key of its own file. */
  lemma AcceptedExactlyWhen(config: Config, run: seq<World>, i: nat, kid: string)
    requires IsRun(config, run) && i < |run|
    ensures Accepted(run[i], kid) <==>
              EntryOf(run[i], kid).Some? && EntryOf(run[i], kid).value.status in {Active, Retiring}
              && run[i].now < EntryOf(run[i], kid).value.notAfter.instant
    ensures Accepted(run[i], kid) ==>
              && kid in run[i].snapshot.value.publicKeys
              && VerificationKeyAt(run[i].snapshot, kid, run[i].now) == Some(run[i].snapshot.value.publicKeys[kid])
  {
    RunIsSound(config, run, i);
  }

  /** A manifest is installed only while its entries fit the clock: active and retiring keys in their
      windows, pending ones not past theirs, expired ones past it. */
  lemma InstalledEntriesFitTheClock(config: Config, run: seq<World>, i: nat, kid: string)
    requires IsRun(config, run) && i + 1 < |run| && run[i + 1].snapshot != run[i].snapshot
    requires EntryOf(run[i + 1], kid).Some?
    ensures var entry, now := EntryOf(run[i + 1], kid).value, run[i + 1].now;
      && !entry.status.Unrecognised? && entry.notBefore.instant < entry.notAfter.instant
      && (entry.status in {Active, Retiring} ==> entry.notBefore.instant <= now)
      && (entry.status in {Pending, Active, Retiring} ==> now < entry.notAfter.instant)
      && (entry.status == Expired ==> entry.notAfter.instant <= now)
  {
    assert StepsAt(config, run, i);
    StepShape(config, run[i], run[i + 1]);
    var c :| Installs(config, run[i], run[i + 1], c);
    assert ValidEntry(c.manifest, kid, run[i].now);
  }

  /** The key has come to its end in this snapshot. */
  predicate EndedIn(w: World, kid: string) {
    EntryOf(w, kid).Some? && EntryOf(w, kid).value.status in {Revoked, Expired}
  }

  /** Until a loaded manifest ends it, a key that was listed stays listed, pending ones included, with
      its file and window, and its status only moves forward. */
  lemma {:induction false} ListedKeysStay(config: Config, run: seq<World>, i: nat, j: nat, kid: string)
    requires IsRun(config, run) && i <= j < |run| && EntryOf(run[i], kid).Some?
    requires forall k :: i <= k < j ==> !EndedIn(run[k], kid)
    ensures EntryOf(run[j], kid).Some?
    ensures EntryOf(run[j], kid).value.SameMetadata(EntryOf(run[i], kid).value)
    ensures Forward(EntryOf(run[i], kid).value.status, EntryOf(run[j], kid).value.status)
    decreases j
  {
    if i < j {
      ListedKeysStay(config, run, i, j - 1, kid);
      assert StepsAt(config, run, j - 1) && !EndedIn(run[j - 1], kid);
      StepShape(config, run[j - 1], run[j]);
      if run[j].snapshot != run[j - 1].snapshot {
        var c :| Installs(config, run[j - 1], run[j], c);
        assert EntryMayBecome(EntryOf(run[j - 1], kid).value, c.manifest, kid);
        ForwardIsClosure(EntryOf(run[j - 1], kid).value.status, EntryOf(run[j], kid).value.status);
        ForwardIsClosure(EntryOf(run[i], kid).value.status, EntryOf(run[j], kid).value.status);
      }
    }
  }

  // ---- generations ----------------------------------------------------------------------------

  /** With or without a recorder: an installed snapshot stays, its generation never falls, and one
      generation never stands for two manifests. */
  lemma {:induction false} GenerationNeverFalls(config: Config, run: seq<World>, i: nat, j: nat)
    requires IsRun(config, run) && i <= j < |run| && run[i].snapshot.Some?
    ensures run[j].snapshot.Some?
    ensures var m, m' := run[i].snapshot.value.manifest, run[j].snapshot.value.manifest;
            m.generation <= m'.generation && (m.generation == m'.generation ==> m == m')
    decreases j
  {
    if i < j {
      GenerationNeverFalls(config, run, i, j - 1);
      assert StepsAt(config, run, j - 1);
      StepShape(config, run[j - 1], run[j]);
    }
  }

  /** Which files a reload takes over: a loadable manifest that is newer than the current one and may
      replace it, with all its key files and, for a key set that signs, the active private key. */
  lemma CandidateExactlyWhen(current: Option<Snapshot>, files: KeyFiles, config: Config, now: int)
    ensures Examine(current, files, config, now).Candidate? <==>
      && files.manifest.Some? && Loadable(files.manifest.value, config.issuer, now)
      && (current.Some? ==> current.value.manifest.generation < files.manifest.value.generation
                            && MayReplace(current.value.manifest, files.manifest.value))
      && KeysReadable(files.manifest.value, files)
      && (config.signs ==> PrivateKeyFits(files.manifest.value, files))
    ensures Examine(current, files, config, now).Unchanged? <==>
      && files.manifest.Some? && Loadable(files.manifest.value, config.issuer, now)
      && current.Some? && files.manifest.value == current.value.manifest
    ensures Examine(current, files, config, now).Candidate? ==>
      && Examine(current, files, config, now).snapshot.manifest == files.manifest.value
      && forall kid <- files.manifest.value.keys :: kid in Examine(current, files, config, now).snapshot.publicKeys
           && Examine(current, files, config, now).snapshot.publicKeys[kid]
              == files.publicKeys[files.manifest.value.keys[kid].publicKeyPath]
  {}

  // ---- no early rejection ---------------------------------------------------------------------

  /** The key is still offered, or its time is over. */
  predicate Honoured(w: World, kid: string, entry: KeyEntry) {
    w.now < entry.notAfter.instant ==>
      && EntryOf(w, kid).Some?
      && EntryOf(w, kid).value.status in {Active, Retiring}
      && EntryOf(w, kid).value.SameMetadata(entry)
  }

  predicate RevokedIn(w: World, kid: string) {
    EntryOf(w, kid).Some? && EntryOf(w, kid).value.status == Revoked
  }

  lemma StepHonours(config: Config, w: World, w': World, kid: string, entry: KeyEntry)
    requires WorldStep(config, w, w') && Honoured(w, kid, entry) && !RevokedIn(w', kid)
    ensures Honoured(w', kid, entry)
  {
    StepShape(config, w, w');
    if w'.snapshot != w.snapshot && w.now < entry.notAfter.instant {
      var c :| Installs(config, w, w', c);
      assert EntryMayBecome(EntryOf(w, kid).value, c.manifest, kid);
      assert ValidEntry(c.manifest, kid, w.now);
    }
  }

  /** A key that was active in the snapshot at step i is accepted at every later step before its
      notAfter, across any number of reloads, failed reloads and other recordings, unless a loaded
      manifest revoked it. With or without a recorder. */
  lemma {:induction false} NoEarlyRejection(config: Config, run: seq<World>, i: nat, j: nat, kid: string)
    requires IsRun(config, run) && i <= j < |run|
    requires EntryOf(run[i], kid).Some? && EntryOf(run[i], kid).value.status == Active
    requires forall k :: i <= k <= j ==> !RevokedIn(run[k], kid)
    ensures Honoured(run[j], kid, EntryOf(run[i], kid).value)
    ensures run[j].now < EntryOf(run[i], kid).value.notAfter.instant ==> Accepted(run[j], kid)
    decreases j
  {
    RunIsSound(config, run, j);
    if i < j {
      NoEarlyRejection(config, run, i, j - 1, kid);
      assert StepsAt(config, run, j - 1);
      assert !RevokedIn(run[j], kid);
      StepHonours(config, run[j - 1], run[j], kid, EntryOf(run[i], kid).value);
    }
  }

  // ---- acceptance is one interval -------------------------------------------------------------

  /** Every key of the snapshot has a row in the store that agrees with it and is at least as far. */
  ghost predicate Backed(config: Config, w: World) {
    forall kid :: EntryOf(w, kid).Some? ==> EntryBacked(config, w.store, kid, EntryOf(w, kid).value)
  }

  predicate EntryBacked(config: Config, store: Store, kid: string, entry: KeyEntry) {
    var key := KeyRef(config.issuer, kid);
    key in store.rows && RowMatches(store.rows[key], entry) && Forward(entry.status, store.rows[key].status)
  }

  /** The key can never be accepted again: its window is over, or the store has ended it. */
  predicate Lost(config: Config, w: World, kid: string) {
    var key := KeyRef(config.issuer, kid);
    && key in w.store.rows
    && (w.store.rows[key].notAfter <= w.now ||
        (w.store.rows[key].status in {Revoked, Expired}
         && (EntryOf(w, kid).Some? ==> EntryOf(w, kid).value.status !in {Active, Retiring})))
  }

  lemma InstalledRow(config: Config, w: World, w': World, c: Snapshot, kid: string)
    requires config.records && Installs(config, w, w', c) && kid in c.manifest.keys
    ensures var key := KeyRef(config.issuer, kid);
            && key in w'.store.rows && RowMatches(w'.store.rows[key], c.manifest.keys[kid])
            && w'.store.rows[key].status == c.manifest.keys[kid].status
  {
    assert RowAfter(w.store.rows, c.manifest, c.manifest.keys.Keys, w'.store.rows, KeyRef(config.issuer, kid));
    assert RecordedRow(w.store.rows, c.manifest, kid).Some?;
  }

  lemma StepKeepsBacked(config: Config, w: World, w': World)
    requires config.records && Backed(config, w) && WorldStep(config, w, w')
    ensures Backed(config, w')
  {
    StepShape(config, w, w');
    StepAdvances(w.store, w'.store);
    forall kid | EntryOf(w', kid).Some? ensures EntryBacked(config, w'.store, kid, EntryOf(w', kid).value) {
      if w'.snapshot == w.snapshot {
        assert EntryBacked(config, w.store, kid, EntryOf(w, kid).value);
        var key := KeyRef(config.issuer, kid);
        assert RowAdvanced(w.store, w'.store, key);
        ForwardIsClosure(EntryOf(w, kid).value.status, w'.store.rows[key].status);
      } else {
        var c :| Installs(config, w, w', c);
        InstalledRow(config, w, w', c, kid);
      }
    }
  }

  lemma {:induction false} RunIsBacked(config: Config, run: seq<World>, i: nat)
    requires config.records && IsRun(config, run) && i < |run|
    ensures Backed(config, run[i])
  {
    if i > 0 {
      RunIsBacked(config, run, i - 1);
      assert StepsAt(config, run, i - 1);
      StepKeepsBacked(config, run[i - 1], run[i]);
    }
  }

  lemma LostIsNotAccepted(config: Config, w: World, kid: string)
    requires Backed(config, w) && Lost(config, w, kid)
    ensures !Accepted(w, kid)
  {
    if EntryOf(w, kid).Some? { assert EntryBacked(config, w.store, kid, EntryOf(w, kid).value); }
  }

  lemma StepKeepsLost(config: Config, w: World, w': World, kid: string)
    requires config.records && Lost(config, w, kid) && WorldStep(config, w, w')
    ensures Lost(config, w', kid)
  {
    StepShape(config, w, w');
    StepAdvances(w.store, w'.store);
    var key := KeyRef(config.issuer, kid);
    assert RowAdvanced(w.store, w'.store, key);
    if w'.snapshot != w.snapshot {
      var c :| Installs(config, w, w', c);
      if kid in c.manifest.keys { InstalledRow(config, w, w', c, kid); }
    }
  }

  lemma StepLoses(config: Config, w: World, w': World, kid: string)
    requires config.records && Sound(config, w) && Backed(config, w) && Backed(config, w') && WorldStep(config, w, w')
    requires Accepted(w, kid) && !Accepted(w', kid)
    ensures Lost(config, w', kid)
  {
    StepShape(config, w, w');
    if w'.snapshot == w.snapshot {
      assert EntryBacked(config, w'.store, kid, EntryOf(w', kid).value);
    } else {
      var c :| Installs(config, w, w', c);
      assert EntryMayBecome(EntryOf(w, kid).value, c.manifest, kid);
      InstalledRow(config, w, w', c, kid);
    }
  }

  lemma {:induction false} LossIsRecorded(config: Config, run: seq<World>, i: nat, j: nat, kid: string)
    requires config.records && IsRun(config, run) && i <= j < |run|
    requires Accepted(run[i], kid) && !Accepted(run[j], kid)
    ensures Lost(config, run[j], kid)
    decreases j
  {
    assert StepsAt(config, run, j - 1);
    if Accepted(run[j - 1], kid) {
      RunIsSound(config, run, j - 1);
      RunIsBacked(config, run, j - 1);
      RunIsBacked(config, run, j);
      StepLoses(config, run[j - 1], run[j], kid);
    } else {
      LossIsRecorded(config, run, i, j - 1, kid);
      StepKeepsLost(config, run[j - 1], run[j], kid);
    }
  }

  lemma {:induction false} LostForever(config: Config, run: seq<World>, j: nat, k: nat, kid: string)
    requires config.records && IsRun(config, run) && j <= k < |run| && Lost(config, run[j], kid)
    ensures Lost(config, run[k], kid) && !Accepted(run[k], kid)
    decreases k
  {
    if j < k {
      LostForever(config, run, j, k - 1, kid);
      assert StepsAt(config, run, k - 1);
      StepKeepsLost(config, run[k - 1], run[k], kid);
    }
    RunIsBacked(config, run, k);
    LostIsNotAccepted(config, run[k], kid);
  }

  /** Over every run with a recorder, the instants at which a key id is accepted form one interval:
      once acceptance is lost it never returns, even if the key is dropped from the manifest and
      added again later. */
  lemma AcceptanceIsOneInterval(config: Config, run: seq<World>, i: nat, j: nat, k: nat, kid: string)
    requires config.records && IsRun(config, run) && i <= j <= k < |run|
    requires Accepted(run[i], kid) && Accepted(run[k], kid)
    ensures Accepted(run[j], kid)
  {
    if !Accepted(run[j], kid) {
      LossIsRecorded(config, run, i, j, kid);
      LostForever(config, run, j, k, kid);
    }
  }

  // ---- without a recorder ---------------------------------------------------------------------

  function SampleEntry(path: string, status: KeyStatus): KeyEntry {
    KeyEntry(path, status, Stamp(1, 0), Stamp(100, 0))
  }

  /** Four generations that activate a, revoke it, drop it, and bring it back as retiring. */
  function SampleManifest(issuer: string, g: nat): Manifest
    requires 1 <= g <= 4
  {
    var b := SampleEntry("/b", if g == 1 then Pending else Active);
    var keys := if g == 3 then map["b" := b]
                else map["a" := SampleEntry("/a", [Active, Revoked, Revoked, Retiring][g - 1]), "b" := b];
    Manifest(issuer, g, if g == 1 then "a" else "b", keys)
  }

  function SampleFiles(issuer: string, g: nat): KeyFiles
    requires 1 <= g <= 4
  {
    var pa, pb := PublicKey(1, 1), PublicKey(2, 2);
    KeyFiles(Some(SampleManifest(issuer, g)), map["/a" := pa, "/b" := pb],
             Some(PrivateKey(if g == 1 then pa else pb, 0)))
  }

  lemma SampleNames()
    ensures ValidKeyId("a") && ValidKeyId("b") && CleanAbsolute("/a") && CleanAbsolute("/b")
  {
    assert ByteLength("a") == 1 && ByteLength("b") == 1;
    assert "/a"[1..] == Join(["a"], '/') && "/b"[1..] == Join(["b"], '/');
    SplitOfJoin(["a"], '/');
    SplitOfJoin(["b"], '/');
  }

  lemma SampleEntryIsValid(issuer: string, g: nat, kid: string)
    requires 1 <= g <= 4 && kid in SampleManifest(issuer, g).keys
    ensures ValidEntry(SampleManifest(issuer, g), kid, 10)
  {
    SampleNames();
  }

  lemma SampleLoads(issuer: string, g: nat)
    requires 1 <= g <= 4 && BoundedClaim(issuer, 2048)
    ensures Loadable(SampleManifest(issuer, g), issuer, 10)
  {
    var m := SampleManifest(issuer, g);
    assert ValidHeader(m, issuer) by {
      SampleNames();
      assert |m.keys| == if g == 3 then 1 else 2;
    }
    forall kid <- m.keys ensures ValidEntry(m, kid, 10) { SampleEntryIsValid(issuer, g, kid); }
  }

  /** The world after loading the first g sample generations. */
  function SampleWorld(config: Config, store: Store, g: nat): World
    requires g <= 4 && BoundedClaim(config.issuer, 2048)
  {
    if g == 0 then World(10, store, None)
    else
      var files := SampleFiles(config.issuer, g);
      World(10, store, Some(Snapshot(files.manifest.value, PublicKeysOf(files.manifest.value, files),
                                     if config.signs then files.privateKey else None)))
  }

  lemma SampleReplaces(issuer: string, g: nat)
    requires 1 <= g < 4
    ensures MayReplace(SampleManifest(issuer, g), SampleManifest(issuer, g + 1))
  {}

  lemma SampleKeysFit(issuer: string, g: nat)
    requires 1 <= g <= 4
    ensures KeysReadable(SampleManifest(issuer, g), SampleFiles(issuer, g))
    ensures PrivateKeyFits(SampleManifest(issuer, g), SampleFiles(issuer, g))
  {}

  lemma NewGenerationIsCandidate(current: Option<Snapshot>, files: KeyFiles, config: Config, now: int)
    requires files.manifest.Some? && Loadable(files.manifest.value, config.issuer, now)
    requires current.Some? ==> current.value.manifest.generation < files.manifest.value.generation
                               && MayReplace(current.value.manifest, files.manifest.value)
    requires KeysReadable(files.manifest.value, files) && PrivateKeyFits(files.manifest.value, files)
    ensures Examine(current, files, config, now) == Candidate(
              Snapshot(files.manifest.value, PublicKeysOf(files.manifest.value, files),
                       if config.signs then files.privateKey else None))
  {}

  lemma SampleReloads(config: Config, store: Store, g: nat)
    requires !config.records && BoundedClaim(config.issuer, 2048) && g < 4
    ensures WorldStep(config, SampleWorld(config, store, g), SampleWorld(config, store, g + 1))
  {
    SampleLoads(config.issuer, g + 1);
    SampleKeysFit(config.issuer, g + 1);
    if g > 0 { SampleReplaces(config.issuer, g); }
    NewGenerationIsCandidate(SampleWorld(config, store, g).snapshot, SampleFiles(config.issuer, g + 1), config, 10);
    assert Reloads(config, SampleFiles(config.issuer, g + 1), SampleWorld(config, store, g),
                   SampleWorld(config, store, g + 1));
  }

  lemma SampleAccepts(config: Config, store: Store)
    requires BoundedClaim(config.issuer, 2048)
    ensures Accepted(SampleWorld(config, store, 1), "a")
    ensures !Accepted(SampleWorld(config, store, 2), "a")
    ensures Accepted(SampleWorld(config, store, 4), "a")
  {}

  lemma RunGrows(config: Config, run: seq<World>, w: World)
    requires IsRun(config, run) && run != [] && WorldStep(config, run[|run| - 1], w)
    ensures IsRun(config, run + [w])
  {
    forall i | 0 <= i < |run| ensures StepsAt(config, run + [w], i) {
      if i < |run| - 1 { assert StepsAt(config, run, i); }
    }
  }

  lemma {:induction false} SampleRun(config: Config, store: Store, g: nat) returns (run: seq<World>)
    requires !config.records && BoundedClaim(config.issuer, 2048) && g <= 4
    ensures |run| == g + 1 && IsRun(config, run)
    ensures forall k :: 0 <= k <= g ==> run[k] == SampleWorld(config, store, k)
  {
    if g == 0 {
      run := [SampleWorld(config, store, 0)];
    } else {
      var shorter := SampleRun(config, store, g - 1);
      SampleReloads(config, store, g - 1);
      RunGrows(config, shorter, SampleWorld(config, store, g));
      run := shorter + [SampleWorld(config, store, g)];
    }
  }

  /** The recorder is what makes acceptance one interval: without it, for every configuration that
      can load a manifest at all, some run revokes a key and accepts it again later. */
  lemma WithoutRecorderAcceptanceReturns(config: Config, store: Store) returns (run: seq<World>)
    requires !config.records && BoundedClaim(config.issuer, 2048)
    ensures |run| == 5 && run[0].store == store && IsRun(config, run)
    ensures Accepted(run[1], "a") && !Accepted(run[2], "a") && Accepted(run[4], "a")
  {
    SampleAccepts(config, store);
    run := SampleRun(config, store, 4);
  }

  /** The steps at which a key id is accepted form one interval. */
  ghost predicate OneInterval(run: seq<World>) {
    forall i, j, k, kid :: 0 <= i <= j <= k < |run| && Accepted(run[i], kid) && Accepted(run[k], kid) ==>
      Accepted(run[j], kid)
  }

  /** Every run accepts each key id over one interval exactly when the key set has a recorder. */
  lemma OneIntervalExactlyWhen(config: Config)
    requires BoundedClaim(config.issuer, 2048)
    ensures (forall run :: IsRun(config, run) ==> OneInterval(run)) <==> config.records
  {
    if config.records {
      forall run | IsRun(config, run) ensures OneInterval(run) {
        forall i, j, k, kid | 0 <= i <= j <= k < |run| && Accepted(run[i], kid) && Accepted(run[k], kid)
          ensures Accepted(run[j], kid)
        {
          AcceptanceIsOneInterval(config, run, i, j, k, kid);
        }
      }
    } else {
      var run := WithoutRecorderAcceptanceReturns(config, Store(map[], []));
      assert !OneInterval(run);
    }
  }
}
