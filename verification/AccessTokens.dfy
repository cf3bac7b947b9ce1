/**
 Access tokens (pkg/iam/token.go) and agent tunnel tokens (pkg/iam/agent_tunnel_token.go): what is
 signed, what is verified, and at which instants a token passes. Instants and durations are
 nanoseconds, claims are whole seconds (sections 4.1.4 to 4.1.6 of RFC 7519). A signature is known
 by its key.
 */
module AccessTokens {
  import opened Options
  import opened Texts
  import opened Permissions
  import opened Sets
  import KeyManifests

  const SECOND := 1_000_000_000
  const DAY := 24 * 60 * 60

  /** time.Time.Unix: the second an instant falls in. */
  function Unix(t: int): int { t / SECOND }

  lemma UnixBounds(t: int)
    ensures Unix(t) * SECOND <= t < (Unix(t) + 1) * SECOND
  {}

  lemma UnixMonotone(s: int, t: int)
    requires s <= t
    ensures Unix(s) <= Unix(t)
  {}

  /** An instant lies before a whole second exactly when its own second does. */
  lemma BeforeSecond(t: int, second: int)
    ensures Unix(t) < second <==> t < second * SECOND
  {
    UnixBounds(t);
  }

  /** The seconds between two truncated instants, and when they exceed the duration between them. */
  lemma TruncatedLifetime(now: int, ttl: int)
    ensures Unix(now + ttl) - Unix(now) == Unix(ttl) + if now % SECOND + ttl % SECOND >= SECOND then 1 else 0
    ensures (Unix(now + ttl) - Unix(now)) * SECOND <= ttl <==> now % SECOND + ttl % SECOND < SECOND || ttl % SECOND == 0
  {
    assert now == Unix(now) * SECOND + now % SECOND && ttl == Unix(ttl) * SECOND + ttl % SECOND;
    assert now + ttl == (Unix(now) + Unix(ttl)) * SECOND + (now % SECOND + ttl % SECOND);
  }

  // ---- access tokens --------------------------------------------------------------------------

  const PROFILE := "hnb.identity/v1"
  const TOKEN_TYPE := "at+jwt"
  const ALGORITHM := "ES256"
  const MAX_TOKEN_SIZE := 8192
  const MAX_ACCESS_TTL := 60 * SECOND

  datatype Config = Config(issuer: string, audience: string, audiences: seq<string>, accessTTL: int)
  datatype Identity = Identity(subjectId: string, subjectType: string, membershipId: string, tenantId: string)

  datatype Claims = Claims(
    profileVersion: string, issuer: string, audiences: seq<string>, subjectId: string, subjectType: string,
    tenantId: string, membershipId: string, memberships: seq<string>, policyVersion: string,
    permissions: seq<Permission>, allowedActions: seq<string>,
    issuedAt: int, notBefore: int, expiresAt: int, authTime: int, tokenId: string, keyId: string, algorithm: string)

  /** A compact token: its header, its claims, the key that signed both, and its length. */
  datatype Token = Token(tokenType: string, algorithm: string, keyId: string, claims: Claims,
                         signedWith: KeyManifests.PublicKey, size: nat)

  predicate ValidAudiences(values: seq<string>) {
    1 <= |values| <= 16 && (forall i :: 0 <= i < |values| ==> BoundedClaim(values[i], 256) && values[i] != "*")
      && Distinct(values)
  }

  predicate ValidMemberships(values: seq<string>, selected: string) {
    1 <= |values| <= 128 && selected in values && (forall i :: 0 <= i < |values| ==> BoundedClaim(values[i], 128))
      && Distinct(values)
  }

  method CheckAudiences(values: seq<string>) returns (ok: bool)
    ensures ok == ValidAudiences(values)
  {
    if |values| == 0 || |values| > 16 { return false; }
    var seen: set<string> := {};
    for i := 0 to |values|
      invariant forall k :: 0 <= k < i ==> BoundedClaim(values[k], 256) && values[k] != "*" && values[k] in seen
      invariant forall v <- seen :: v in values[..i]
      invariant Distinct(values[..i])
    {
      if !BoundedClaim(values[i], 256) || values[i] == "*" { return false; }
      if values[i] in seen {
        assert values[i] in values[..i];
        return false;
      }
      seen := seen + {values[i]};
    }
    assert values[..|values|] == values;
    return true;
  }

  method CheckMemberships(values: seq<string>, selected: string) returns (ok: bool)
    ensures ok == ValidMemberships(values, selected)
  {
    if |values| == 0 || |values| > 128 || selected !in values { return false; }
    var seen: set<string> := {};
    for i := 0 to |values|
      invariant forall k :: 0 <= k < i ==> BoundedClaim(values[k], 128) && values[k] in seen
      invariant forall v <- seen :: v in values[..i]
      invariant Distinct(values[..i])
    {
      if !BoundedClaim(values[i], 128) { return false; }
      if values[i] in seen {
        assert values[i] in values[..i];
        return false;
      }
      seen := seen + {values[i]};
    }
    assert values[..|values|] == values;
    return true;
  }

  /** What NewTokenManager demands. */
  predicate ValidConfig(c: Config) {
    && c.issuer != "" && c.audience != "" && c.audience != "*"
    && SECOND <= c.accessTTL <= MAX_ACCESS_TTL
    && c.audience in c.audiences && ValidAudiences(c.audiences)
  }

  predicate ValidSubjectType(s: string) { s in {"user", "workload", "service"} }

  predicate WellFormed(id: Identity) {
    id.subjectId != "" && ValidSubjectType(id.subjectType) && BoundedClaim(id.membershipId, 128)
  }

  /** The access token of issue and issueAccess; None when the snapshot, the key id or the size is
      refused. The actions are what PermissionActions returns. */
  function Issue(c: Config, id: Identity, policyVersion: string, permissions: seq<Permission>, actions: seq<string>,
                 keyId: string, key: KeyManifests.PublicKey, tokenId: string, authTime: int, now: int,
                 size: nat): Option<Token>
  {
    if !ValidSnapshot(policyVersion, permissions, id.tenantId) || !BoundedClaim(keyId, 128)
      || size > MAX_TOKEN_SIZE then None
    else
      Some(Token(TOKEN_TYPE, ALGORITHM, keyId,
        Claims(PROFILE, c.issuer, c.audiences, id.subjectId, id.subjectType, id.tenantId, id.membershipId,
               [id.membershipId],
               policyVersion, permissions, actions,
               Unix(now), Unix(now), Unix(now + c.accessTTL), Unix(authTime), tokenId, keyId, ALGORITHM),
        key, size))
  }

  /** The claim checks that do not look at a clock. */
  predicate ClaimsFit(c: Config, t: Token) {
    var k := t.claims;
    && k.profileVersion == PROFILE && k.issuer == c.issuer && c.audience in k.audiences && ValidAudiences(k.audiences)
    && k.keyId == t.keyId && k.algorithm == t.algorithm && k.subjectId != "" && ValidSubjectType(k.subjectType)
    && BoundedClaim(k.tenantId, 128) && BoundedClaim(k.membershipId, 128)
    && ValidMemberships(k.memberships, k.membershipId)
    && k.tokenId != ""
  }

  predicate TimesFit(c: Config, k: Claims, now: int) {
    && k.issuedAt > 0 && k.notBefore > 0 && k.expiresAt > 0 && k.authTime > 0
    && k.issuedAt <= Unix(now) && k.authTime <= k.issuedAt && k.notBefore <= Unix(now) && Unix(now) < k.expiresAt
    && k.issuedAt < k.expiresAt && (k.expiresAt - k.issuedAt) * SECOND <= c.accessTTL
  }

  /** TokenVerifier.Verify, given what the key ring returns for the token's key id. */
  predicate Verify(c: Config, t: Token, ringKey: Option<KeyManifests.PublicKey>, now: int) {
    && 0 < t.size <= MAX_TOKEN_SIZE
    && t.tokenType == TOKEN_TYPE && t.algorithm == ALGORITHM && t.keyId != ""
    && ringKey == Some(t.signedWith)
    && ClaimsFit(c, t) && TimesFit(c, t.claims, now)
    && ValidSnapshot(t.claims.policyVersion, t.claims.permissions, t.claims.tenantId)
    && IsListing(t.claims.allowedActions, t.claims.permissions)
  }

  /** What the issuing side guarantees about its inputs: a checked configuration, a well-formed
      identity, a non-empty token id, the actions PermissionActions makes, and a clock past the epoch. */
  predicate Issuable(c: Config, id: Identity, permissions: seq<Permission>, actions: seq<string>, tokenId: string,
                     authTime: int, now: int, size: nat) {
    && ValidConfig(c) && WellFormed(id) && tokenId != "" && size > 0
    && Distinct(actions) && Elements(actions) == ActionSet(permissions) && |actions| <= |permissions|
    && SECOND <= authTime <= now
  }

  lemma IssuedClaimsFit(c: Config, id: Identity, policyVersion: string, permissions: seq<Permission>,
                        actions: seq<string>, keyId: string, key: KeyManifests.PublicKey,
                        tokenId: string, authTime: int, now: int, size: nat)
    requires Issuable(c, id, permissions, actions, tokenId, authTime, now, size)
    requires Issue(c, id, policyVersion, permissions, actions, keyId, key, tokenId, authTime, now, size).Some?
    ensures var t := Issue(c, id, policyVersion, permissions, actions, keyId, key, tokenId, authTime, now, size).value;
      ClaimsFit(c, t) && IsListing(t.claims.allowedActions, t.claims.permissions)
  {
    ActionsOfSnapshotAreListing(policyVersion, permissions, id.tenantId, actions);
  }

  /** Whom a verified token speaks for (TokenVerifier.Authenticate). */
  datatype Trusted = Trusted(profileVersion: string, subjectId: string, subjectType: string, tenantId: string,
    membershipId: string, policyVersion: string, permissions: seq<Permission>,
    tokenId: string, authTime: int, expiresAt: int)

  function Authenticate(c: Config, t: Token, ringKey: Option<KeyManifests.PublicKey>, now: int): Option<Trusted> {
    if !Verify(c, t, ringKey, now) then None
    else
      var k := t.claims;
      Some(Trusted(k.profileVersion, k.subjectId, k.subjectType, k.tenantId, k.membershipId, k.policyVersion,
                   k.permissions, k.tokenId, k.authTime * SECOND, k.expiresAt * SECOND))
  }

  /** The manager's Authenticate: the membership must still resolve to the same identity. */
  function AuthenticateMember(c: Config, t: Token, ringKey: Option<KeyManifests.PublicKey>, now: int,
                              resolve: (string, string) -> Option<Identity>): Option<Trusted> {
    var trusted := Authenticate(c, t, ringKey, now);
    if trusted.None? then None
    else
      var identity := resolve(trusted.value.subjectId, trusted.value.membershipId);
      if identity == Some(Identity(trusted.value.subjectId, trusted.value.subjectType,
                                   trusted.value.membershipId, trusted.value.tenantId)) then trusted else None
  }

  /** Round trip: whoever authenticates with an issued token, at whatever verifier and instant, gets the
      identity, the policy and the permissions it was issued for, the second of the login, and an expiry
      within its lifetime. */
  lemma AuthenticatesAsIssued(c: Config, id: Identity, policyVersion: string, permissions: seq<Permission>,
                              actions: seq<string>, keyId: string, key: KeyManifests.PublicKey,
                              tokenId: string, authTime: int, now: int, size: nat,
                              v: Config, ringKey: Option<KeyManifests.PublicKey>, at: int)
    requires Issue(c, id, policyVersion, permissions, actions, keyId, key, tokenId, authTime, now, size).Some?
    ensures var t := Issue(c, id, policyVersion, permissions, actions, keyId, key, tokenId, authTime, now, size).value;
      var trusted := Authenticate(v, t, ringKey, at);
      && (trusted.Some? <==> Verify(v, t, ringKey, at))
      && (trusted.Some? ==>
            && Identity(trusted.value.subjectId, trusted.value.subjectType,
                        trusted.value.membershipId, trusted.value.tenantId) == id
            && trusted.value.policyVersion == policyVersion && trusted.value.permissions == permissions
            && trusted.value.tokenId == tokenId
            && trusted.value.authTime <= authTime < trusted.value.authTime + SECOND
            && at < trusted.value.expiresAt <= now + c.accessTTL)
  {
    UnixBounds(authTime);
    UnixBounds(now + c.accessTTL);
    BeforeSecond(at, Unix(now + c.accessTTL));
  }

  /** At the manager, exactly while the subject's membership still resolves to that identity. */
  lemma MemberAuthenticatesExactlyWhen(c: Config, id: Identity, policyVersion: string, permissions: seq<Permission>,
                                       actions: seq<string>, keyId: string, key: KeyManifests.PublicKey,
                                       tokenId: string, authTime: int, now: int, size: nat,
                                       v: Config, ringKey: Option<KeyManifests.PublicKey>, at: int,
                                       resolve: (string, string) -> Option<Identity>)
    requires Issue(c, id, policyVersion, permissions, actions, keyId, key, tokenId, authTime, now, size).Some?
    ensures var t := Issue(c, id, policyVersion, permissions, actions, keyId, key, tokenId, authTime, now, size).value;
      AuthenticateMember(v, t, ringKey, at, resolve).Some? <==>
        Verify(v, t, ringKey, at) && resolve(id.subjectId, id.membershipId) == Some(id)
  {
    AuthenticatesAsIssued(c, id, policyVersion, permissions, actions, keyId, key, tokenId, authTime, now, size,
                          v, ringKey, at);
  }

  /** Which verifier passes an issued token, and when: one with the same issuer whose audience the token
      lists, whose key ring returns the key that signed, whose limit covers the truncated lifetime, from
      the second of the signing to the truncated expiry. */
  lemma VerifiesExactlyWhen(c: Config, id: Identity, policyVersion: string, permissions: seq<Permission>,
                            actions: seq<string>, keyId: string, key: KeyManifests.PublicKey,
                            tokenId: string, authTime: int, now: int, size: nat,
                            v: Config, ringKey: Option<KeyManifests.PublicKey>, at: int)
    requires Issuable(c, id, permissions, actions, tokenId, authTime, now, size)
    requires Issue(c, id, policyVersion, permissions, actions, keyId, key, tokenId, authTime, now, size).Some?
    ensures var t := Issue(c, id, policyVersion, permissions, actions, keyId, key, tokenId, authTime, now, size).value;
      Verify(v, t, ringKey, at) <==>
        && v.issuer == c.issuer && v.audience in c.audiences && ringKey == Some(key)
        && (Unix(now + c.accessTTL) - Unix(now)) * SECOND <= v.accessTTL
        && Unix(now) * SECOND <= at < Unix(now + c.accessTTL) * SECOND
  {
    IssuedClaimsFit(c, id, policyVersion, permissions, actions, keyId, key, tokenId, authTime, now, size);
    TruncatedLifetime(now, c.accessTTL);
    BeforeSecond(at, Unix(now));
    BeforeSecond(at, Unix(now + c.accessTTL));
    UnixMonotone(SECOND, authTime);
    UnixMonotone(authTime, now);
  }

  /** What a token that passes is known to carry, whoever signed it: a valid snapshot for its tenant, just
      the actions of its permissions, each once, one membership list with the selected one, and a login
      not after the issuing, which is not after now, which is before the expiry. */
  lemma VerifiedMeans(v: Config, t: Token, ringKey: Option<KeyManifests.PublicKey>, at: int)
    requires Verify(v, t, ringKey, at)
    ensures ValidSnapshot(t.claims.policyVersion, t.claims.permissions, t.claims.tenantId)
    ensures |Elements(t.claims.allowedActions)| == |t.claims.allowedActions|
    ensures forall action :: action in t.claims.allowedActions <==> PermitsAction(t.claims.permissions, action)
    ensures t.claims.membershipId in t.claims.memberships && t.claims.subjectId != "" && t.claims.tokenId != ""
    ensures 0 < t.claims.authTime <= t.claims.issuedAt && t.claims.issuedAt * SECOND <= at < t.claims.expiresAt * SECOND
    ensures (t.claims.expiresAt - t.claims.issuedAt) * SECOND <= v.accessTTL
  {
    BeforeSecond(at, t.claims.issuedAt);
    BeforeSecond(at, t.claims.expiresAt);
    DistinctCount(t.claims.allowedActions);
    forall action ensures action in t.claims.allowedActions <==> PermitsAction(t.claims.permissions, action) {
      assert action in t.claims.allowedActions <==> action in Elements(t.claims.allowedActions);
    }
  }

  predicate PermitsAction(permissions: seq<Permission>, action: string) {
    exists k :: 0 <= k < |permissions| && permissions[k].action == action
  }

  /** Only tokens of the verifier's own issuer and audience, signed by the ring's key, ever pass. */
  lemma ForeignTokensFail(v: Config, t: Token, ringKey: Option<KeyManifests.PublicKey>, at: int)
    requires t.claims.issuer != v.issuer || v.audience !in t.claims.audiences || ringKey != Some(t.signedWith)
             || t.claims.keyId != t.keyId || t.size > MAX_TOKEN_SIZE || t.algorithm != ALGORITHM
             || t.claims.expiresAt * SECOND <= at
    ensures !Verify(v, t, ringKey, at)
  {
    BeforeSecond(at, t.claims.expiresAt);
  }

  /** When an issued token verifies, for any configured lifetime: from the second of its signing to
      its truncated expiry, provided truncation has not stretched its lifetime beyond the limit.
      For whole-second lifetimes the proviso always holds. */
  lemma IssuedTokenWindow(c: Config, id: Identity, policyVersion: string, permissions: seq<Permission>,
                          actions: seq<string>, keyId: string, key: KeyManifests.PublicKey,
                          tokenId: string, authTime: int, now: int, size: nat, at: int)
    requires Issuable(c, id, permissions, actions, tokenId, authTime, now, size)
    requires Issue(c, id, policyVersion, permissions, actions, keyId, key, tokenId, authTime, now, size).Some?
    ensures var t := Issue(c, id, policyVersion, permissions, actions, keyId, key, tokenId, authTime, now, size).value;
      Verify(c, t, Some(key), at) <==>
        && Unix(now) * SECOND <= at < t.claims.expiresAt * SECOND
        && (now % SECOND + c.accessTTL % SECOND < SECOND || c.accessTTL % SECOND == 0)
  {
    VerifiesExactlyWhen(c, id, policyVersion, permissions, actions, keyId, key, tokenId, authTime, now, size,
                        c, Some(key), at);
    TruncatedLifetime(now, c.accessTTL);
  }

  /** With a whole-second lifetime, a token passes at every instant from its signing until its
      truncated expiry and at none after it. */
  lemma WholeSecondTokens(c: Config, id: Identity, policyVersion: string, permissions: seq<Permission>,
                          actions: seq<string>, keyId: string, key: KeyManifests.PublicKey,
                          tokenId: string, authTime: int, now: int, size: nat, at: int)
    requires Issuable(c, id, permissions, actions, tokenId, authTime, now, size) && c.accessTTL % SECOND == 0
    requires Issue(c, id, policyVersion, permissions, actions, keyId, key, tokenId, authTime, now, size).Some?
    requires now <= at
    ensures var t := Issue(c, id, policyVersion, permissions, actions, keyId, key, tokenId, authTime, now, size).value;
      && (Verify(c, t, Some(key), at) <==> at < t.claims.expiresAt * SECOND)
      && Verify(c, t, Some(key), now)
      && now + c.accessTTL - SECOND < t.claims.expiresAt * SECOND <= now + c.accessTTL
  {
    IssuedTokenWindow(c, id, policyVersion, permissions, actions, keyId, key, tokenId, authTime, now, size, at);
    IssuedTokenWindow(c, id, policyVersion, permissions, actions, keyId, key, tokenId, authTime, now, size, now);
    UnixBounds(now);
    UnixBounds(now + c.accessTTL);
  }

  /** No access token is good for more than a minute. */
  lemma AccessLivesAtMostAMinute(c: Config, id: Identity, policyVersion: string, permissions: seq<Permission>,
                                 actions: seq<string>, keyId: string, key: KeyManifests.PublicKey,
                                 tokenId: string, authTime: int, now: int, size: nat)
    requires Issuable(c, id, permissions, actions, tokenId, authTime, now, size)
    requires Issue(c, id, policyVersion, permissions, actions, keyId, key, tokenId, authTime, now, size).Some?
    ensures var t := Issue(c, id, policyVersion, permissions, actions, keyId, key, tokenId, authTime, now, size).value;
      0 < t.claims.expiresAt - t.claims.issuedAt <= 60
  {
    TruncatedLifetime(now, c.accessTTL);
    UnixBounds(c.accessTTL);
  }

  /** A lifetime of one and a half seconds, issued half a second into a second, never verifies. */
  lemma FractionalLifetimeCanFail(c: Config, id: Identity, policyVersion: string, permissions: seq<Permission>,
                                  actions: seq<string>, keyId: string, key: KeyManifests.PublicKey,
                                  tokenId: string, size: nat, second: nat, at: int)
    requires second >= 1 && c.accessTTL == 3 * SECOND / 2
    requires var now := second * SECOND + SECOND / 2;
      Issuable(c, id, permissions, actions, tokenId, now, now, size)
      && Issue(c, id, policyVersion, permissions, actions, keyId, key, tokenId, now, now, size).Some?
    ensures var now := second * SECOND + SECOND / 2;
      !Verify(c, Issue(c, id, policyVersion, permissions, actions, keyId, key, tokenId, now, now, size).value,
              Some(key), at)
  {
    var now := second * SECOND + SECOND / 2;
    IssuedTokenWindow(c, id, policyVersion, permissions, actions, keyId, key, tokenId, now, now, size, at);
  }

  // ---- agent tunnel tokens --------------------------------------------------------------------

  const TUNNEL_PROFILE := "hnb.agent-tunnel/v1"
  const TUNNEL_TYPE := "agent-tunnel+jwt"

  datatype TunnelConfig = TunnelConfig(issuer: string, audience: string, ttl: int)
  datatype TunnelClaims = TunnelClaims(
    profileVersion: string, issuer: string, audience: string, subjectId: string, subjectType: string,
    tenantId: string, clusterId: string, issuedAt: int, notBefore: int, expiresAt: int,
    tokenId: string, keyId: string, algorithm: string)
  datatype TunnelToken = TunnelToken(tokenType: string, algorithm: string, keyId: string, claims: TunnelClaims,
                                     signedWith: KeyManifests.PublicKey, size: nat)

  predicate ValidTunnelConfig(c: TunnelConfig) {
    BoundedClaim(c.issuer, 256) && BoundedClaim(c.audience, 256) && c.audience != "*" && SECOND <= c.ttl <= DAY * SECOND
  }

  predicate ValidBinding(tenantId: string, clusterId: string) {
    BoundedClaim(tenantId, 128) && tenantId != "*" && BoundedClaim(clusterId, 64) && clusterId != "*"
  }

  /** time.Time.Truncate to a second. */
  function Truncate(t: int): int { Unix(t) * SECOND }

  function Sign(c: TunnelConfig, tenantId: string, clusterId: string, keyId: string, key: KeyManifests.PublicKey,
                tokenId: string, now: int, size: nat): Option<TunnelToken> {
    if !ValidBinding(tenantId, clusterId) || !BoundedClaim(keyId, 128) then None
    else
      Some(TunnelToken(TUNNEL_TYPE, ALGORITHM, keyId,
        TunnelClaims(TUNNEL_PROFILE, c.issuer, c.audience, "cluster-agent", "service", tenantId, clusterId,
                     Unix(now), Unix(now), Unix(Truncate(now + c.ttl)), tokenId, keyId, ALGORITHM),
        key, size))
  }

  /** AgentTunnelTokenVerifier.Verify: the expiry instant, or None. */
  function VerifyTunnel(c: TunnelConfig, t: TunnelToken, ringKey: Option<KeyManifests.PublicKey>, tenantId: string,
                        clusterId: string, now: int): Option<int> {
    var k := t.claims;
    if !(0 < t.size <= MAX_TOKEN_SIZE) || t.tokenType != TUNNEL_TYPE || t.algorithm != ALGORITHM
       || !BoundedClaim(t.keyId, 128)
       || ringKey != Some(t.signedWith) then None
    else if k.profileVersion != TUNNEL_PROFILE || k.issuer != c.issuer || k.audience != c.audience
            || k.subjectType != "service"
            || k.keyId != t.keyId || k.algorithm != t.algorithm || !BoundedClaim(k.tokenId, 128)
            || k.issuedAt <= 0 || k.notBefore <= 0 || k.expiresAt <= 0 || k.issuedAt > Unix(now)
            || k.notBefore > Unix(now)
            || k.expiresAt <= Unix(now) || k.expiresAt <= k.issuedAt || k.expiresAt - k.issuedAt > DAY then None
    else if !ValidBinding(k.tenantId, k.clusterId) || k.tenantId != tenantId || k.clusterId != clusterId then None
    else Some(k.expiresAt * SECOND)
  }

  /** For every lifetime from one second to a day, fractional ones included: a tunnel token passes
      exactly at verifiers of its issuer and audience whose ring returns the key that signed, for the
      tenant and cluster it was signed for, at exactly the instants from its signing until the expiry
      its signer was given, and verification returns that expiry. The signer does not check the size,
      so a token that is too long never passes. */
  lemma TunnelTokenWindow(c: TunnelConfig, tenantId: string, clusterId: string, keyId: string,
                          key: KeyManifests.PublicKey, tokenId: string, now: int, size: nat,
                          v: TunnelConfig, ringKey: Option<KeyManifests.PublicKey>,
                          tenant: string, cluster: string, at: int)
    requires ValidTunnelConfig(c) && BoundedClaim(tokenId, 128) && SECOND <= now <= at
    requires Sign(c, tenantId, clusterId, keyId, key, tokenId, now, size).Some?
    ensures var t := Sign(c, tenantId, clusterId, keyId, key, tokenId, now, size).value;
      VerifyTunnel(v, t, ringKey, tenant, cluster, at) ==
        if && tenant == tenantId && cluster == clusterId && at < Truncate(now + c.ttl) && 0 < size <= MAX_TOKEN_SIZE
           && v.issuer == c.issuer && v.audience == c.audience && ringKey == Some(key)
        then Some(Truncate(now + c.ttl)) else None
  {
    TruncatedLifetime(now, c.ttl);
    BeforeSecond(at, Unix(now + c.ttl));
    UnixMonotone(SECOND, now);
    UnixMonotone(now, at);
    LifetimeWithinDay(c.ttl);
    assert Unix(Truncate(now + c.ttl)) == Unix(now + c.ttl);
  }

  /** What a tunnel token that passes is known to carry, whoever signed it. */
  lemma VerifiedTunnelMeans(v: TunnelConfig, t: TunnelToken, ringKey: Option<KeyManifests.PublicKey>,
                            tenant: string, cluster: string, at: int)
    requires VerifyTunnel(v, t, ringKey, tenant, cluster, at).Some?
    ensures t.claims.issuer == v.issuer && t.claims.audience == v.audience && ringKey == Some(t.signedWith)
    ensures t.claims.tenantId == tenant && t.claims.clusterId == cluster
    ensures tenant !in {"", "*"} && cluster !in {"", "*"}
    ensures t.claims.issuedAt * SECOND <= at < t.claims.expiresAt * SECOND
    ensures t.claims.expiresAt - t.claims.issuedAt <= 24 * 60 * 60 && t.claims.subjectType == "service"
    ensures VerifyTunnel(v, t, ringKey, tenant, cluster, at) == Some(t.claims.expiresAt * SECOND)
  {
    BeforeSecond(at, t.claims.issuedAt);
    BeforeSecond(at, t.claims.expiresAt);
  }

  /** Rounding a lifetime of at most a day up to whole seconds does not exceed a day. */
  lemma LifetimeWithinDay(ttl: int)
    requires SECOND <= ttl <= DAY * SECOND
    ensures 1 <= Unix(ttl) <= DAY && (ttl % SECOND > 0 ==> Unix(ttl) + 1 <= DAY)
  {
    UnixBounds(ttl);
  }
}
