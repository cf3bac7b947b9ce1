/**
 The signing-key manifest (pkg/iam/key_manifest.go): its entries, the order in which a key's
 status may move, and the checks a manifest must pass before it may replace another one.
 */
module KeyManifests {
  import opened Texts

  /** The status text of an entry; any text other than the five known ones is Unrecognised. */
  datatype KeyStatus = Pending | Active | Retiring | Revoked | Expired | Unrecognised(text: string)

  /** A timestamp with its zone: Equal and Before look at the instant, the JSON text at both.
      Instants are nanoseconds counted from Go's zero time. */
  datatype Stamp = Stamp(instant: int, offset: int)

  datatype KeyEntry = KeyEntry(publicKeyPath: string, status: KeyStatus, notBefore: Stamp, notAfter: Stamp) {
    predicate SameMetadata(other: KeyEntry) {
      && publicKeyPath == other.publicKeyPath
      && notBefore.instant == other.notBefore.instant
      && notAfter.instant == other.notAfter.instant
    }

    /** Whether VerificationKey accepts a token under this entry at the given instant. */
    predicate AcceptedAt(now: int) {
      status in {Active, Retiring} && notBefore.instant <= now < notAfter.instant
    }
  }

  /** Two manifests have the same canonical JSON exactly when they are the same value. */
  datatype Manifest = Manifest(issuer: string, generation: nat, activeKeyId: string, keys: map<string, KeyEntry>)

  /** A P-256 key pair; a private key determines its public key. */
  datatype PublicKey = PublicKey(x: int, y: int)
  datatype PrivateKey = PrivateKey(publicKey: PublicKey, secret: int)

  // ---- status order ---------------------------------------------------------------------------

  /** One allowed status change, as tabulated by validKeyStatusTransition. */
  predicate ValidTransition(before: KeyStatus, after: KeyStatus) {
    before == after ||
    match before
    case Pending => after in {Active, Revoked, Expired}
    case Active => after in {Retiring, Revoked}
    case Retiring => after in {Revoked, Expired}
    case _ => false
  }

  /** The table by target: what a status may come from. An active key cannot expire before it retires. */
  lemma StatusComesFrom(before: KeyStatus, after: KeyStatus)
    requires before != after
    ensures ValidTransition(before, after) <==>
      || (after == Active && before == Pending) || (after == Retiring && before == Active)
      || (after == Revoked && before in {Pending, Active, Retiring})
      || (after == Expired && before in {Pending, Retiring})
  {}

  /** The order behind the table: pending, active, retiring, then one of two ends. */
  predicate Forward(before: KeyStatus, after: KeyStatus) {
    before == after ||
    match before
    case Pending => after in {Active, Retiring, Revoked, Expired}
    case Active => after in {Retiring, Revoked, Expired}
    case Retiring => after in {Revoked, Expired}
    case _ => false
  }

  /** Forward is the reflexive and transitive closure of the table: what any number of allowed
      changes can do, and three changes always suffice. */
  lemma ForwardIsClosure(before: KeyStatus, after: KeyStatus)
    ensures ValidTransition(before, after) ==> Forward(before, after)
    ensures forall mid :: Forward(before, mid) && Forward(mid, after) ==> Forward(before, after)
    ensures Forward(before, after) ==>
              exists one, two :: ValidTransition(before, one) && ValidTransition(one, two)
                && ValidTransition(two, after)
  {
    if Forward(before, after) {
      var one := if before == Pending && after == Retiring then Active else before;
      var two := if one == Active && after == Expired then Retiring else one;
      assert ValidTransition(before, one) && ValidTransition(one, two) && ValidTransition(two, after);
    }
  }

  // ---- loading --------------------------------------------------------------------------------

  predicate ValidKeyId(kid: string) {
    && BoundedClaim(kid, 128)
    && forall c <- kid :: 'a' <= c <= 'z' || 'A' <= c <= 'Z' || '0' <= c <= '9' || c in "._-"
  }

  predicate ValidHeader(m: Manifest, issuer: string) {
    && m.issuer == issuer && BoundedClaim(m.issuer, 2048)
    && 0 < m.generation <= MAX_INT64
    && ValidKeyId(m.activeKeyId)
    && 0 < |m.keys| <= 64
  }

  /** What one entry must satisfy at loading time. */
  predicate ValidEntry(m: Manifest, kid: string, now: int)
    requires kid in m.keys
  {
    var entry := m.keys[kid];
    && ValidKeyId(kid)
    && entry.notBefore.instant != 0 && entry.notAfter.instant != 0
    && entry.notBefore.instant < entry.notAfter.instant
    && CleanAbsolute(entry.publicKeyPath)
    && match entry.status
       case Pending => now < entry.notAfter.instant
       case Revoked => true
       case Active => kid == m.activeKeyId && entry.notBefore.instant <= now < entry.notAfter.instant
       case Retiring => entry.notBefore.instant <= now < entry.notAfter.instant
       case Expired => entry.notAfter.instant <= now
       case Unrecognised(_) => false
  }

  /** A manifest the loader accepts. Its one active key is the key activeKeyId names. */
  predicate Loadable(m: Manifest, issuer: string, now: int) {
    && ValidHeader(m, issuer)
    && (forall kid <- m.keys :: ValidEntry(m, kid, now))
    && m.activeKeyId in m.keys && m.keys[m.activeKeyId].status == Active
  }

  lemma LoadableHasOneActive(m: Manifest, issuer: string, now: int, kid: string)
    requires Loadable(m, issuer, now) && kid in m.keys
    ensures m.keys[kid].status == Active <==> kid == m.activeKeyId
  {
    assert ValidEntry(m, kid, now);
  }

  /** The checks of loadKeyManifest: entries are visited in any order and active ones counted. */
  method CheckManifest(m: Manifest, issuer: string, now: int) returns (ok: bool)
    ensures ok == Loadable(m, issuer, now)
  {
    if !ValidHeader(m, issuer) { return false; }
    var activeCount := 0;
    var remaining := m.keys.Keys;
    while remaining != {}
      invariant remaining <= m.keys.Keys
      invariant forall kid :: kid in m.keys && kid !in remaining ==> ValidEntry(m, kid, now)
      invariant activeCount ==
        if m.activeKeyId in m.keys && m.activeKeyId !in remaining && m.keys[m.activeKeyId].status == Active
        then 1 else 0
      decreases |remaining|
    {
      var kid :| kid in remaining;
      if !ValidEntry(m, kid, now) { return false; }
      if m.keys[kid].status == Active { activeCount := activeCount + 1; }
      remaining := remaining - {kid};
    }
    return activeCount == 1;
  }

  // ---- replacing one manifest by another ------------------------------------------------------

  predicate EntryMayBecome(before: KeyEntry, next: Manifest, kid: string) {
    if kid in next.keys then
      ValidTransition(before.status, next.keys[kid].status) && before.SameMetadata(next.keys[kid])
    else
      before.status in {Revoked, Expired}
  }

  /** validateManifestTransition: no live key disappears and no key moves back or changes identity. */
  predicate MayReplace(previous: Manifest, next: Manifest) {
    forall kid <- previous.keys :: EntryMayBecome(previous.keys[kid], next, kid)
  }

  method CheckTransition(previous: Manifest, next: Manifest) returns (ok: bool)
    ensures ok == MayReplace(previous, next)
  {
    var remaining := previous.keys.Keys;
    while remaining != {}
      invariant remaining <= previous.keys.Keys
      invariant forall kid :: kid in previous.keys && kid !in remaining ==>
                  EntryMayBecome(previous.keys[kid], next, kid)
      decreases |remaining|
    {
      var kid :| kid in remaining;
      if !EntryMayBecome(previous.keys[kid], next, kid) { return false; }
      remaining := remaining - {kid};
    }
    return true;
  }
}
