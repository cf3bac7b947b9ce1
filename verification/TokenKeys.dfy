/**
 Tokens under a reloading key set: what key rotation and revocation mean for tokens already issued
 (pkg/iam/token.go over pkg/iam/key_manifest.go).
 */
module TokenKeys {
  import opened Options
  import K = KeyReloads
  import opened KeyManifests
  import opened Permissions
  import opened AccessTokens

  /** The Unix epoch, counted from Go's zero time. */
  const EPOCH := 62_135_596_800 * SECOND

  /** The public key an installed snapshot holds for a key id: what the key's file held when that
      snapshot was read. */
  function InstalledKey(w: K.World, kid: string): Option<PublicKey> {
    if w.snapshot.Some? && kid in w.snapshot.value.publicKeys then Some(w.snapshot.value.publicKeys[kid]) else None
  }

  /** The signing key of step i is still in its window at step j, and no manifest between revoked it. */
  ghost predicate Usable(run: seq<K.World>, i: nat, j: nat)
    requires i <= j < |run|
  {
    var signing := K.SigningKeyAt(run[i].snapshot, run[i].now);
    signing.Some? && var kid := signing.value.0;
      && (forall k :: i <= k <= j ==> !K.RevokedIn(run[k], kid))
      && run[j].now < run[i].snapshot.value.manifest.keys[kid].notAfter.instant
  }

  /** While its window lasts and no loaded manifest revokes it, the id that signed at step i is still
      served at step j, with the public key that was read last for it. */
  lemma SigningKeyIsServed(config: K.Config, run: seq<K.World>, i: nat, j: nat)
    requires K.IsRun(config, run) && i <= j < |run| && Usable(run, i, j)
    ensures var (kid, key) := K.SigningKeyAt(run[i].snapshot, run[i].now).value;
      && InstalledKey(run[i], kid) == Some(key.publicKey)
      && InstalledKey(run[j], kid).Some?
      && K.VerificationKeyAt(run[j].snapshot, kid, run[j].now) == InstalledKey(run[j], kid)
  {
    var kid := K.SigningKeyAt(run[i].snapshot, run[i].now).value.0;
    K.SigningKeyIsAccepted(config, run, i);
    K.NoEarlyRejection(config, run, i, j, kid);
  }

  /** The key files are never rewritten: a path always holds the same public key. */
  predicate KeyFilesFixed(run: seq<K.World>, files: map<string, PublicKey>) {
    forall i :: 0 <= i < |run| && run[i].snapshot.Some? ==> SnapshotFrom(run[i].snapshot.value, files)
  }

  predicate SnapshotFrom(s: K.Snapshot, files: map<string, PublicKey>) {
    forall kid <- s.publicKeys :: kid in s.manifest.keys && s.manifest.keys[kid].publicKeyPath in files
                                  && s.publicKeys[kid] == files[s.manifest.keys[kid].publicKeyPath]
  }

  /** With key files that are never rewritten that is the key that signed. */
  lemma FixedFilesServeTheSigner(config: K.Config, run: seq<K.World>, files: map<string, PublicKey>, i: nat, j: nat)
    requires K.IsRun(config, run) && i <= j < |run| && Usable(run, i, j) && KeyFilesFixed(run, files)
    ensures var kid := K.SigningKeyAt(run[i].snapshot, run[i].now).value.0;
            InstalledKey(run[j], kid) == InstalledKey(run[i], kid)
  {
    var kid := K.SigningKeyAt(run[i].snapshot, run[i].now).value.0;
    SigningKeyIsServed(config, run, i, j);
    K.NoEarlyRejection(config, run, i, j, kid);
    assert SnapshotFrom(run[i].snapshot.value, files) && SnapshotFrom(run[j].snapshot.value, files);
  }

  /** Rotating keys does not cut tokens short: across any number of reloads that keep the key unrevoked
      and within its window, an access token issued with the signing key of step i verifies at step j
      exactly until its truncated expiry, and exactly as long as the last reading of the key's file
      still found the key that signed. */
  lemma TokenOutlivesRotation(config: K.Config, run: seq<K.World>, i: nat, j: nat, c: Config, id: Identity,
                              policyVersion: string, permissions: seq<Permission>, actions: seq<string>,
                              tokenId: string, authTime: int, size: nat)
    requires K.IsRun(config, run) && i <= j < |run| && Usable(run, i, j)
    requires Issuable(c, id, permissions, actions, tokenId, authTime, run[i].now - EPOCH, size)
    requires c.accessTTL % SECOND == 0
    requires var (kid, key) := K.SigningKeyAt(run[i].snapshot, run[i].now).value;
      Issue(c, id, policyVersion, permissions, actions, kid, key.publicKey, tokenId, authTime, run[i].now - EPOCH,
            size).Some?
    ensures var (kid, key) := K.SigningKeyAt(run[i].snapshot, run[i].now).value;
      var t := Issue(c, id, policyVersion, permissions, actions, kid, key.publicKey,
                     tokenId, authTime, run[i].now - EPOCH, size).value;
      Verify(c, t, K.VerificationKeyAt(run[j].snapshot, kid, run[j].now), run[j].now - EPOCH) <==>
        run[j].now - EPOCH < t.claims.expiresAt * SECOND && InstalledKey(run[j], kid) == InstalledKey(run[i], kid)
  {
    var (kid, key) := K.SigningKeyAt(run[i].snapshot, run[i].now).value;
    SigningKeyIsServed(config, run, i, j);
    K.TimeAdvances(config, run, i, j);
    WholeSecondTokens(c, id, policyVersion, permissions, actions, kid, key.publicKey, tokenId, authTime,
                      run[i].now - EPOCH, size, run[j].now - EPOCH);
  }

  /** With a recorder, a token whose key was once accepted and is then rejected never verifies
      again, whatever is loaded later and whatever the token says. */
  lemma RejectedTokenStaysRejected(config: K.Config, run: seq<K.World>, i: nat, j: nat, k: nat, c: Config, t: Token)
    requires config.records && K.IsRun(config, run) && i <= j <= k < |run|
    requires K.Accepted(run[i], t.keyId) && !K.Accepted(run[j], t.keyId)
    ensures !Verify(c, t, K.VerificationKeyAt(run[k].snapshot, t.keyId, run[k].now), run[k].now - EPOCH)
  {
    if K.Accepted(run[k], t.keyId) { K.AcceptanceIsOneInterval(config, run, i, j, k, t.keyId); }
  }
}
