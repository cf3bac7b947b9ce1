/**
 Refresh-token rotation (pkg/iam/store.go, pkg/iam/token.go): a token is a row keyed by the hash of
 its value; rotating consumes one row and inserts its successor in one transaction.
 */
module RefreshTokens {
  import opened Options
  import opened Texts

  datatype Row = Row(subject: string, membership: string, expiresAt: int, consumedAt: Option<int>)
  type Rows = map<string, Row>

  /** INSERT; the hash is the primary key. None is an error. */
  function Create(rows: Rows, hash: string, subject: string, membership: string, expiresAt: int): Option<Rows> {
    if hash in rows then None else Some(rows[hash := Row(subject, membership, expiresAt, None)])
  }

  predicate Rotatable(rows: Rows, hash: string, now: int) {
    hash in rows && rows[hash].consumedAt.None? && rows[hash].expiresAt > now
  }

  /** One transaction: the old row is consumed and the new one inherits its identity. */
  function Rotate(rows: Rows, oldHash: string, newHash: string, expiresAt: int, now: int): Option<Rows> {
    if !Rotatable(rows, oldHash, now) || newHash in rows then None
    else
      var spent := rows[oldHash := rows[oldHash].(consumedAt := Some(now))];
      Some(spent[newHash := Row(rows[oldHash].subject, rows[oldHash].membership, expiresAt, None)])
  }

  /** Whether Refresh rotates: the value has an acceptable length and the store rotates its hash. */
  predicate Refreshes(rows: Rows, value: string, newValue: string, hash: string -> string, expiresAt: int, now: int)
    ensures Refreshes(rows, value, newValue, hash, expiresAt, now) ==> hash(value) in rows
  {
    43 <= ByteLength(value) <= 512 && Rotate(rows, hash(value), hash(newValue), expiresAt, now).Some?
  }

  class RefreshTokenStore {
    var rows: Rows

    constructor ()
      ensures rows == map[]
    {
      rows := map[];
    }

    method CreateRefreshToken(hash: string, subject: string, membership: string, expiresAt: int) returns (ok: bool)
      modifies this
      ensures ok == Create(old(rows), hash, subject, membership, expiresAt).Some?
      ensures rows == if ok then Create(old(rows), hash, subject, membership, expiresAt).value else old(rows)
    {
      if hash in rows { return false; }
      rows := rows[hash := Row(subject, membership, expiresAt, None)];
      return true;
    }

    method RotateRefreshToken(oldHash: string, newHash: string, expiresAt: int, now: int) returns (was: Option<Row>)
      modifies this
      ensures was.Some? == Rotate(old(rows), oldHash, newHash, expiresAt, now).Some?
      ensures was.Some? ==> oldHash in old(rows) && was.value == old(rows)[oldHash]
      ensures rows == if was.Some? then Rotate(old(rows), oldHash, newHash, expiresAt, now).value else old(rows)
    {
      if oldHash !in rows || rows[oldHash].consumedAt.Some? || !(rows[oldHash].expiresAt > now) { return None; }
      var row := rows[oldHash];
      var tx := rows[oldHash := row.(consumedAt := Some(now))];
      if newHash in tx { return None; }
      rows := tx[newHash := Row(row.subject, row.membership, expiresAt, None)];
      return Some(row);
    }

    /** The whole of Refresh. hash stands for SHA-256 of a token value, resolve for the membership
        lookup, issue for issueAccess. The rotation is committed first, so a token whose identity is
        gone or whose access token cannot be issued is consumed all the same. */
    method Refresh<I, T>(value: string, newValue: string, hash: string -> string, expiresAt: int, now: int,
                         resolve: (string, string) -> Option<I>, issue: I -> Option<T>) returns (access: Option<T>)
      modifies this
      ensures rows == if Refreshes(old(rows), value, newValue, hash, expiresAt, now)
                      then Rotate(old(rows), hash(value), hash(newValue), expiresAt, now).value else old(rows)
      ensures access == if !Refreshes(old(rows), value, newValue, hash, expiresAt, now) then None
                        else
                          var was := old(rows)[hash(value)];
                          var identity := resolve(was.subject, was.membership);
                          if identity.None? then None else issue(identity.value)
    {
      if ByteLength(value) < 43 || ByteLength(value) > 512 { return None; }
      var was := RotateRefreshToken(hash(value), hash(newValue), expiresAt, now);
      if was.None? { return None; }
      var identity := resolve(was.value.subject, was.value.membership);
      if identity.None? { return None; }
      return issue(identity.value);
    }
  }

  // ---- runs -----------------------------------------------------------------------------------

  datatype Step =
    | Issues(hash: string, subject: string, membership: string, expiresAt: int)
    | Rotates(oldHash: string, newHash: string, expiresAt: int, now: int)

  function Attempt(rows: Rows, step: Step): Option<Rows> {
    match step
    case Issues(hash, subject, membership, expiresAt) => Create(rows, hash, subject, membership, expiresAt)
    case Rotates(oldHash, newHash, expiresAt, now) => Rotate(rows, oldHash, newHash, expiresAt, now)
  }

  function After(steps: seq<Step>): Rows {
    if steps == [] then map[]
    else
      var before := After(steps[..|steps| - 1]);
      if Attempt(before, steps[|steps| - 1]).Some? then Attempt(before, steps[|steps| - 1]).value else before
  }

  /** The rotations that succeeded, in order: each token with its successor. */
  function Rotations(steps: seq<Step>): seq<(string, string)> {
    if steps == [] then []
    else
      var front, last := steps[..|steps| - 1], steps[|steps| - 1];
      Rotations(front)
      + if last.Rotates? && Attempt(After(front), last).Some? then [(last.oldHash, last.newHash)] else []
  }

  lemma {:induction false} RotatedIsConsumed(steps: seq<Step>)
    ensures forall k :: 0 <= k < |Rotations(steps)| ==>
              Rotations(steps)[k].0 in After(steps) && After(steps)[Rotations(steps)[k].0].consumedAt.Some?
  {
    if steps != [] { RotatedIsConsumed(steps[..|steps| - 1]); }
  }

  /** Over any run, each token rotates successfully at most once. */
  lemma {:induction false} RotatesAtMostOnce(steps: seq<Step>, j: nat, k: nat)
    requires j < k < |Rotations(steps)|
    ensures Rotations(steps)[j].0 != Rotations(steps)[k].0
  {
    var front := steps[..|steps| - 1];
    if k < |Rotations(front)| { RotatesAtMostOnce(front, j, k); }
    else { RotatedIsConsumed(front); }
  }

  // ---- chains ---------------------------------------------------------------------------------

  /** A place in a chain: chains are numbered, and index 0 is the root. */
  datatype Place = Place(chain: nat, index: nat)

  /** Disjoint linear chains: which token stands where, and how long each chain is. */
  datatype Forest = Forest(place: map<string, Place>, token: map<Place, string>, length: seq<nat>)

  /** The chains a run builds: issuing a token starts a chain, and a rotation puts the new token
      right behind the old one. */
  function Chains(steps: seq<Step>): Forest {
    if steps == [] then Forest(map[], map[], [])
    else
      var front, last := steps[..|steps| - 1], steps[|steps| - 1];
      var f := Chains(front);
      if Attempt(After(front), last).None? then f
      else match last
        case Issues(hash, _, _, _) => StartChain(f, hash)
        case Rotates(oldHash, newHash, _, _) =>
          if oldHash in f.place && f.place[oldHash].chain < |f.length| then Extend(f, f.place[oldHash], newHash) else f
  }

  function StartChain(f: Forest, hash: string): Forest {
    var p := Place(|f.length|, 0);
    Forest(f.place[hash := p], f.token[p := hash], f.length + [1])
  }

  function Extend(f: Forest, at: Place, hash: string): Forest
    requires at.chain < |f.length|
  {
    var p := at.(index := at.index + 1);
    Forest(f.place[hash := p], f.token[p := hash], f.length[at.chain := p.index + 1])
  }

  predicate InForest(f: Forest, p: Place) { p.chain < |f.length| && p.index < f.length[p.chain] }

  /** The places are exactly the tokens: none missing, none shared, and no gap in a chain. */
  ghost predicate Bijective(rows: Rows, f: Forest) {
    && (forall hash :: hash in rows <==> hash in f.place)
    && (forall hash <- f.place :: f.place[hash] in f.token && f.token[f.place[hash]] == hash)
    && (forall p :: p in f.token <==> InForest(f, p))
    && (forall p <- f.token :: f.token[p] in f.place && f.place[f.token[p]] == p)
  }

  /** The token at one place is unconsumed exactly at the end of its chain and has the identity of
      the chain's root. */
  predicate TokenOk(rows: Rows, f: Forest, p: Place) {
    var root := Place(p.chain, 0);
    && p in f.token && f.token[p] in rows && root in f.token && f.token[root] in rows && InForest(f, p)
    && (rows[f.token[p]].consumedAt.None? <==> p.index == f.length[p.chain] - 1)
    && rows[f.token[p]].subject == rows[f.token[root]].subject
    && rows[f.token[p]].membership == rows[f.token[root]].membership
  }

  ghost predicate ChainsOk(rows: Rows, f: Forest) {
    Bijective(rows, f) && forall p <- f.token :: TokenOk(rows, f, p)
  }

  lemma StartKeepsBijective(rows: Rows, f: Forest, hash: string, row: Row)
    requires Bijective(rows, f) && hash !in rows
    ensures Bijective(rows[hash := row], StartChain(f, hash))
  {
    var f' := StartChain(f, hash);
    assert Place(|f.length|, 0) !in f.token;
    forall p ensures p in f'.token <==> InForest(f', p) { assert p in f.token <==> InForest(f, p); }
  }

  lemma StartKeepsChains(rows: Rows, f: Forest, hash: string, row: Row)
    requires ChainsOk(rows, f) && hash !in rows && row.consumedAt.None?
    ensures ChainsOk(rows[hash := row], StartChain(f, hash))
  {
    var rows', f' := rows[hash := row], StartChain(f, hash);
    StartKeepsBijective(rows, f, hash, row);
    assert Place(|f.length|, 0) !in f.token;
    forall p <- f'.token ensures TokenOk(rows', f', p) {
      if p in f.token { assert TokenOk(rows, f, p); }
    }
  }

  /** The place of a token that can still be rotated is the end of its chain. */
  lemma RotatableIsLast(rows: Rows, f: Forest, hash: string, now: int)
    requires ChainsOk(rows, f) && Rotatable(rows, hash, now)
    ensures hash in f.place && f.place[hash] in f.token && f.token[f.place[hash]] == hash
    ensures f.place[hash].chain < |f.length| && f.place[hash].index == f.length[f.place[hash].chain] - 1
  {
    assert hash in f.place;
    assert TokenOk(rows, f, f.place[hash]);
  }

  lemma ExtendKeepsBijective(rows: Rows, rows': Rows, f: Forest, at: Place, hash: string)
    requires Bijective(rows, f) && hash !in rows && InForest(f, at) && at.index == f.length[at.chain] - 1
    requires rows'.Keys == rows.Keys + {hash}
    ensures Bijective(rows', Extend(f, at, hash))
  {
    var f', next := Extend(f, at, hash), at.(index := at.index + 1);
    assert !InForest(f, next) && next !in f.token;
    forall p ensures p in f'.token <==> InForest(f', p) { assert p in f.token <==> InForest(f, p); }
  }

  lemma RotateKeepsChains(rows: Rows, f: Forest, oldHash: string, newHash: string, expiresAt: int, now: int)
    requires ChainsOk(rows, f) && Rotate(rows, oldHash, newHash, expiresAt, now).Some?
    ensures oldHash in f.place && f.place[oldHash].chain < |f.length|
    ensures ChainsOk(Rotate(rows, oldHash, newHash, expiresAt, now).value, Extend(f, f.place[oldHash], newHash))
  {
    RotatableIsLast(rows, f, oldHash, now);
    var at := f.place[oldHash];
    var rows', f' := Rotate(rows, oldHash, newHash, expiresAt, now).value, Extend(f, at, newHash);
    var next := at.(index := at.index + 1);
    ExtendKeepsBijective(rows, rows', f, at, newHash);
    assert next !in f.token by { assert !InForest(f, next); }
    forall p <- f'.token ensures TokenOk(rows', f', p) {
      ExtendedTokenOk(rows, f, oldHash, newHash, expiresAt, now, p);
    }
  }

  lemma ExtendedTokenOk(rows: Rows, f: Forest, oldHash: string, newHash: string, expiresAt: int, now: int, p: Place)
    requires ChainsOk(rows, f) && Rotate(rows, oldHash, newHash, expiresAt, now).Some?
    requires oldHash in f.place && f.place[oldHash] in f.token && f.token[f.place[oldHash]] == oldHash
    requires f.place[oldHash].chain < |f.length| && f.place[oldHash].index == f.length[f.place[oldHash].chain] - 1
    requires p in Extend(f, f.place[oldHash], newHash).token
    ensures TokenOk(Rotate(rows, oldHash, newHash, expiresAt, now).value, Extend(f, f.place[oldHash], newHash), p)
  {
    var at := f.place[oldHash];
    var next := at.(index := at.index + 1);
    assert TokenOk(rows, f, at) && !InForest(f, next);
    if p != next {
      assert TokenOk(rows, f, p);
      assert f.token[p] == oldHash ==> p == at;
    }
  }

  /** Over any run the tokens form disjoint linear chains: every token stands at exactly one place,
      only the end of a chain is unconsumed, and every token carries the subject and membership of
      its chain's root. */
  lemma {:induction false} TokensFormChains(steps: seq<Step>)
    ensures ChainsOk(After(steps), Chains(steps))
  {
    if steps != [] {
      var front, last := steps[..|steps| - 1], steps[|steps| - 1];
      TokensFormChains(front);
      if Attempt(After(front), last).Some? {
        match last
        case Issues(hash, subject, membership, expiresAt) =>
          StartKeepsChains(After(front), Chains(front), hash, Row(subject, membership, expiresAt, None));
        case Rotates(oldHash, newHash, expiresAt, now) =>
          RotateKeepsChains(After(front), Chains(front), oldHash, newHash, expiresAt, now);
      }
    }
  }

  predicate SameChain(f: Forest, hash: string, other: string) {
    hash in f.place && other in f.place && f.place[hash].chain == f.place[other].chain
  }

  /** Two unconsumed tokens of one chain are the same token. */
  lemma OneLiveTokenPerChain(steps: seq<Step>, hash: string, other: string)
    requires hash in After(steps) && After(steps)[hash].consumedAt.None?
    requires other in After(steps) && After(steps)[other].consumedAt.None?
    requires SameChain(Chains(steps), hash, other)
    ensures hash == other
  {
    TokensFormChains(steps);
    var f := Chains(steps);
    assert TokenOk(After(steps), f, f.place[hash]) && TokenOk(After(steps), f, f.place[other]);
  }

  /** The links of the chains are the successful rotations: a token follows another directly
      exactly when it was rotated from it. */
  ghost predicate FollowsDirectly(f: Forest, older: string, newer: string) {
    older in f.place && newer in f.place && f.place[newer] == f.place[older].(index := f.place[older].index + 1)
  }

  lemma {:induction false} LinksAreRotations(steps: seq<Step>, older: string, newer: string)
    ensures FollowsDirectly(Chains(steps), older, newer) <==> (older, newer) in Rotations(steps)
  {
    if steps != [] {
      var front, last := steps[..|steps| - 1], steps[|steps| - 1];
      LinksAreRotations(front, older, newer);
      TokensFormChains(front);
      TokensFormChains(steps);
      var rows, f := After(front), Chains(front);
      if Attempt(rows, last).Some? && last.Rotates? {
        RotatableIsLast(rows, f, last.oldHash, last.now);
        RotationLinks(rows, f, last.oldHash, last.newHash, older, newer);
      } else if Attempt(rows, last).Some? {
        StartLinks(rows, f, last.hash, older, newer);
      }
    }
  }

  lemma StartLinks(rows: Rows, f: Forest, hash: string, older: string, newer: string)
    requires Bijective(rows, f) && hash !in rows
    ensures FollowsDirectly(StartChain(f, hash), older, newer) <==> FollowsDirectly(f, older, newer)
  {
    assert hash !in f.place;
    if newer in f.place { assert f.place[newer] in f.token && InForest(f, f.place[newer]); }
  }

  lemma RotationLinks(rows: Rows, f: Forest, oldHash: string, newHash: string, older: string, newer: string)
    requires Bijective(rows, f) && newHash !in rows && oldHash in f.place
    requires f.place[oldHash].chain < |f.length| && f.place[oldHash].index == f.length[f.place[oldHash].chain] - 1
    ensures FollowsDirectly(Extend(f, f.place[oldHash], newHash), older, newer) <==>
              FollowsDirectly(f, older, newer) || (older == oldHash && newer == newHash)
  {
    assert newHash !in f.place && f.place[oldHash] in f.token;
    if newer in f.place { assert f.place[newer] in f.token && InForest(f, f.place[newer]); }
    if older in f.place {
      assert f.place[older] in f.token && InForest(f, f.place[older]) && f.token[f.place[older]] == older;
    }
  }

  // ---- when a rotation succeeds ---------------------------------------------------------------

  /** The token a step asks to insert, with its expiry. */
  function Inserted(step: Step): (string, int) {
    match step
    case Issues(hash, _, _, expiresAt) => (hash, expiresAt)
    case Rotates(_, newHash, expiresAt, _) => (newHash, expiresAt)
  }

  /** The expiry a token was given when it was inserted, if it was. */
  function GivenExpiry(steps: seq<Step>, hash: string): Option<int> {
    if steps == [] then None
    else
      var front, last := steps[..|steps| - 1], steps[|steps| - 1];
      if Attempt(After(front), last).Some? && Inserted(last).0 == hash then Some(Inserted(last).1)
      else GivenExpiry(front, hash)
  }

  predicate HasRotated(steps: seq<Step>, hash: string) {
    exists k :: 0 <= k < |Rotations(steps)| && Rotations(steps)[k].0 == hash
  }

  /** The instant at which a token rotated, if it did. */
  function RotatedAt(steps: seq<Step>, hash: string): Option<int> {
    if steps == [] then None
    else
      var front, last := steps[..|steps| - 1], steps[|steps| - 1];
      if last.Rotates? && Attempt(After(front), last).Some? && last.oldHash == hash then Some(last.now)
      else RotatedAt(front, hash)
  }

  lemma {:induction false} ConsumedWhenRotated(steps: seq<Step>, hash: string)
    ensures hash in After(steps) ==> After(steps)[hash].consumedAt == RotatedAt(steps, hash)
    ensures hash !in After(steps) ==> RotatedAt(steps, hash).None?
  {
    if steps != [] { ConsumedWhenRotated(steps[..|steps| - 1], hash); }
  }

  /** Whom a token was given to: named when it was issued, or inherited from the token it replaced. */
  function GivenIdentity(steps: seq<Step>, hash: string): Option<(string, string)> {
    if steps == [] then None
    else
      var front, last := steps[..|steps| - 1], steps[|steps| - 1];
      if Attempt(After(front), last).Some? && Inserted(last).0 == hash then
        (if last.Issues? then Some((last.subject, last.membership)) else GivenIdentity(front, last.oldHash))
      else GivenIdentity(front, hash)
  }

  lemma {:induction false} RowsKeepIdentity(steps: seq<Step>, hash: string)
    requires hash in After(steps)
    ensures GivenIdentity(steps, hash) == Some((After(steps)[hash].subject, After(steps)[hash].membership))
  {
    var front, last := steps[..|steps| - 1], steps[|steps| - 1];
    if Attempt(After(front), last).Some? && Inserted(last).0 == hash {
      if last.Rotates? { RowsKeepIdentity(front, last.oldHash); }
    } else {
      RowsKeepIdentity(front, hash);
    }
  }

  /** A row exists exactly for a token that was inserted; it keeps the expiry it was given, and it is
      consumed exactly when the token has rotated. */
  lemma {:induction false} RowsTellHistory(steps: seq<Step>, hash: string)
    ensures hash in After(steps) <==> GivenExpiry(steps, hash).Some?
    ensures hash in After(steps) ==> After(steps)[hash].expiresAt == GivenExpiry(steps, hash).value
    ensures hash in After(steps) ==> (After(steps)[hash].consumedAt.Some? <==> HasRotated(steps, hash))
    ensures HasRotated(steps, hash) ==> hash in After(steps)
  {
    if steps != [] {
      var front, last := steps[..|steps| - 1], steps[|steps| - 1];
      RowsTellHistory(front, hash);
      RotatedMore(steps, hash);
    }
  }

  lemma RotatedMore(steps: seq<Step>, hash: string)
    requires steps != []
    ensures var front, last := steps[..|steps| - 1], steps[|steps| - 1];
      HasRotated(steps, hash) <==>
        HasRotated(front, hash) || (last.Rotates? && Attempt(After(front), last).Some? && last.oldHash == hash)
  {
    var front, last := steps[..|steps| - 1], steps[|steps| - 1];
    if HasRotated(front, hash) {
      var k :| 0 <= k < |Rotations(front)| && Rotations(front)[k].0 == hash;
      assert Rotations(steps)[k].0 == hash;
    }
    if last.Rotates? && Attempt(After(front), last).Some? && last.oldHash == hash {
      assert Rotations(steps)[|Rotations(front)|].0 == hash;
    }
  }

  /** Over any run, a rotation succeeds exactly when its token was inserted, has not rotated before and
      is not past the expiry it was given, and its successor is new. */
  lemma RotatesExactlyWhen(steps: seq<Step>, step: Step)
    requires step.Rotates?
    ensures Attempt(After(steps), step).Some? <==>
      && GivenExpiry(steps, step.oldHash).Some? && step.now < GivenExpiry(steps, step.oldHash).value
      && !HasRotated(steps, step.oldHash) && GivenExpiry(steps, step.newHash).None?
  {
    RowsTellHistory(steps, step.oldHash);
    RowsTellHistory(steps, step.newHash);
  }

  /** Refresh on any run: exactly a value of 43 to 512 bytes whose hash could rotate. */
  lemma RefreshesExactlyWhen(steps: seq<Step>, value: string, newValue: string, hash: string -> string,
                             expiresAt: int, now: int)
    ensures Refreshes(After(steps), value, newValue, hash, expiresAt, now) <==>
      && 43 <= ByteLength(value) && ByteLength(value) <= 512
      && GivenExpiry(steps, hash(value)).Some? && now < GivenExpiry(steps, hash(value)).value
      && !HasRotated(steps, hash(value)) && GivenExpiry(steps, hash(newValue)).None?
  {
    RotatesExactlyWhen(steps, Rotates(hash(value), hash(newValue), expiresAt, now));
  }
}
