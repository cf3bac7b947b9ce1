/**
 The release tables of the app store (pkg/appstore/store/repos.go, artifact_repo.go): artifacts,
 releases, the release_artifacts links and the upload sessions, with each transaction as one
 function from tables to tables. None is an error, after which the transaction is rolled back.
 The list of a release's artifacts is stored twice: in the manifest and as link rows.
 */
module ReleaseTables {
  import opened Options

  datatype Verification = VerificationPending | Verified | VerificationFailed
  datatype Lifecycle = ActiveArtifact | Tombstoned | Deleting | Deleted
  datatype Artifact = Artifact(tenant: string, name: string, digest: string, verification: Verification,
                               lifecycle: Lifecycle) {
    predicate Usable() { verification == Verified && lifecycle == ActiveArtifact }
  }

  datatype Entry = Entry(name: string, digest: string, purpose: string)

  /** The value under "artifacts" in a release manifest; Malformed is anything that does not decode
      into a list of entries. */
  datatype ArtifactsField = Missing | Null | Listed(entries: seq<Entry>) | Malformed

  datatype Manifest = Manifest(artifacts: ArtifactsField, otherFields: string) {
    function Entries(): seq<Entry> { if artifacts.Listed? then artifacts.entries else [] }
  }

  /** The SHA-256 of an encoded manifest, taken to be free of collisions. */
  datatype ManifestHash = HashOf(manifest: Manifest)

  datatype ReleaseStatus = Draft | Published
  datatype Release = Release(tenant: string, status: ReleaseStatus, manifest: Manifest, manifestDigest: ManifestHash)

  /** A release_artifacts row of one release. */
  datatype Link = Link(artifact: string, purpose: string, position: nat, digest: string)

  datatype SessionStatus = SessionPending | SessionUploading | SessionCompleted | SessionExpired | SessionFailed
  datatype Session = Session(tenant: string, status: SessionStatus, artifact: Option<string>, release: Option<string>,
                             expiresAt: int)

  datatype DigestKey = DigestKey(tenant: string, digest: string)

  /** The tables. byDigest is the unique index on (tenant_id, digest); links holds each release's
      rows in the order they were inserted. */
  datatype Tables = Tables(
    artifacts: map<string, Artifact>,
    byDigest: map<DigestKey, string>,
    releases: map<string, Release>,
    links: map<string, seq<Link>>,
    sessions: map<string, Session>)
  {
    function LinksOf(release: string): seq<Link> { if release in links then links[release] else [] }
  }

  const EMPTY := Tables(map[], map[], map[], map[], map[])
  const RUNTIME := "runtime"

  // ---- queries over the links of one release --------------------------------------------------

  predicate HasLink(links: seq<Link>, artifact: string, purpose: string) {
    exists k :: 0 <= k < |links| && links[k].artifact == artifact && links[k].purpose == purpose
  }

  /** COALESCE(MAX(position) + 1, 0). */
  function NextPosition(links: seq<Link>): (next: nat)
    ensures forall k :: 0 <= k < |links| ==> links[k].position < next
  {
    if links == [] then 0
    else
      var others, last := NextPosition(links[..|links| - 1]), links[|links| - 1].position;
      if last < others then others else last + 1
  }

  /** Inserts a link behind all others of the same position, as ORDER BY position, created_at does. */
  function InsertByPosition(links: seq<Link>, link: Link): seq<Link> {
    if links == [] || links[|links| - 1].position <= link.position then links + [link]
    else InsertByPosition(links[..|links| - 1], link) + [links[|links| - 1]]
  }

  function OrderByPosition(links: seq<Link>): seq<Link> {
    if links == [] then [] else InsertByPosition(OrderByPosition(links[..|links| - 1]), links[|links| - 1])
  }

  function LinkDigests(links: seq<Link>): seq<string> {
    seq(|links|, k requires 0 <= k < |links| => links[k].digest)
  }

  function EntryDigests(entries: seq<Entry>): seq<string> {
    seq(|entries|, k requires 0 <= k < |entries| => entries[k].digest)
  }

  /** The entries rebuilt from link rows joined with the tenant's artifacts. */
  function EntriesOf(artifacts: map<string, Artifact>, tenant: string, links: seq<Link>): seq<Entry> {
    if links == [] then []
    else
      var last := links[|links| - 1];
      EntriesOf(artifacts, tenant, links[..|links| - 1]) +
      if last.artifact in artifacts && artifacts[last.artifact].tenant == tenant
      then [Entry(artifacts[last.artifact].name, last.digest, last.purpose)] else []
  }

  function WithoutArtifact(links: seq<Link>, artifact: string): seq<Link> {
    if links == [] then []
    else WithoutArtifact(links[..|links| - 1], artifact)
         + if links[|links| - 1].artifact == artifact then [] else [links[|links| - 1]]
  }

  // ---- the pieces transactions are made of ----------------------------------------------------

  predicate IsDigest(s: string) {
    && |s| == 71 && s[..7] == "sha256:"
    && forall c <- s[7..] :: '0' <= c <= '9' || 'a' <= c <= 'f'
  }

  /** extractReleaseArtifactRefs. */
  function References(manifest: Manifest): Option<seq<Entry>> {
    if manifest.artifacts.Malformed?
       || exists k :: 0 <= k < |manifest.Entries()| && !IsDigest(manifest.Entries()[k].digest) then None
    else Some(manifest.Entries())
  }

  /** insertReleaseArtifact: the row for one reference, found by digest among usable artifacts. */
  function LinkFor(t: Tables, tenant: string, ref: Entry, position: nat): Option<Link> {
    var key := DigestKey(tenant, ref.digest);
    if key !in t.byDigest || t.byDigest[key] !in t.artifacts || !t.artifacts[t.byDigest[key]].Usable() then None
    else
      Some(Link(t.byDigest[key], if ref.purpose == "" then RUNTIME else ref.purpose, position,
                t.artifacts[t.byDigest[key]].digest))
  }

  /** The rows of the first n references; a second row for the same artifact and purpose violates
      the primary key. */
  function LinksFor(t: Tables, tenant: string, refs: seq<Entry>, n: nat): Option<seq<Link>>
    requires n <= |refs|
  {
    if n == 0 then Some([])
    else
      var before := LinksFor(t, tenant, refs, n - 1);
      if before.None? then None
      else
        var link := LinkFor(t, tenant, refs[n - 1], n - 1);
        if link.None? || HasLink(before.value, link.value.artifact, link.value.purpose) then None
        else Some(before.value + [link.value])
  }

  predicate IsDraftOf(t: Tables, id: string, tenant: string) {
    id in t.releases && t.releases[id].tenant == tenant && t.releases[id].status == Draft
  }

  predicate IsArtifactOf(t: Tables, id: string, tenant: string) {
    id in t.artifacts && t.artifacts[id].tenant == tenant
  }

  /** Stores a draft's manifest together with its hash. */
  function StoreManifest(t: Tables, id: string, manifest: Manifest): Tables
    requires id in t.releases
  {
    t.(releases := t.releases[id := t.releases[id].(manifest := manifest, manifestDigest := HashOf(manifest))])
  }

  /** rebuildReleaseManifestArtifacts. */
  function Rebuild(t: Tables, id: string, tenant: string): Tables
    requires id in t.releases
  {
    var entries := EntriesOf(t.artifacts, tenant, OrderByPosition(t.LinksOf(id)));
    StoreManifest(t, id, t.releases[id].manifest.(artifacts := Listed(entries)))
  }

  /** INSERT of a runtime link at the end, ON CONFLICT DO NOTHING. */
  function LinkRuntime(links: seq<Link>, artifact: string, digest: string): seq<Link> {
    if HasLink(links, artifact, RUNTIME) then links else links + [Link(artifact, RUNTIME, NextPosition(links), digest)]
  }

  /** appendReleaseManifestArtifact. */
  function AppendEntry(manifest: Manifest, name: string, digest: string): Option<Manifest> {
    if manifest.artifacts.Null? || manifest.artifacts.Malformed? then None
    else if digest in EntryDigests(manifest.Entries()) then Some(manifest)
    else Some(manifest.(artifacts := Listed(manifest.Entries() + [Entry(name, digest, RUNTIME)])))
  }

  /** INSERT of an artifact, ON CONFLICT (tenant_id, digest) keeping the existing one; an id already
      in use is an error. The result names the artifact that is stored. */
  function StoreArtifact(t: Tables, id: string, artifact: Artifact): Option<(Tables, string)> {
    var key := DigestKey(artifact.tenant, artifact.digest);
    if key in t.byDigest then Some((t, t.byDigest[key]))
    else if id in t.artifacts then None
    else Some((t.(artifacts := t.artifacts[id := artifact], byDigest := t.byDigest[key := id]), id))
  }

  // ---- transactions ---------------------------------------------------------------------------

  function CreateRelease(t: Tables, id: string, tenant: string, manifest: Manifest): Option<Tables> {
    var refs := References(manifest);
    if refs.None? || id in t.releases then None
    else
      var links := LinksFor(t, tenant, refs.value, |refs.value|);
      if links.None? then None
      else Some(t.(releases := t.releases[id := Release(tenant, Draft, manifest, HashOf(manifest))],
                   links := t.links[id := links.value]))
  }

  /** The PATCH handler as one step: only a draft is replaced, and it stays a draft. */
  function PatchRelease(t: Tables, id: string, tenant: string, manifest: Manifest): Option<Tables> {
    var refs := References(manifest);
    if !IsDraftOf(t, id, tenant) || refs.None? then None
    else
      var links := LinksFor(t, tenant, refs.value, |refs.value|);
      if links.None? then None
      else Some(StoreManifest(t, id, manifest).(links := t.links[id := links.value]))
  }

  /** The DELETE handler as one step; links are deleted by cascade and sessions let go. */
  function DeleteRelease(t: Tables, id: string, tenant: string): Option<Tables> {
    if !IsDraftOf(t, id, tenant) then None
    else
      Some(t.(releases := t.releases - {id}, links := t.links - {id},
              sessions := map s | s in t.sessions ::
                if t.sessions[s].release == Some(id) then t.sessions[s].(release := None) else t.sessions[s]))
  }

  function AttachToRelease(t: Tables, id: string, artifact: string, tenant: string): Option<Tables> {
    if !IsDraftOf(t, id, tenant) || !IsArtifactOf(t, artifact, tenant) || !t.artifacts[artifact].Usable() then None
    else
      var links := LinkRuntime(t.LinksOf(id), artifact, t.artifacts[artifact].digest);
      Some(Rebuild(t.(links := t.links[id := links]), id, tenant))
  }

  function DetachFromRelease(t: Tables, id: string, artifact: string, tenant: string): Option<Tables> {
    if !IsDraftOf(t, id, tenant) || !IsArtifactOf(t, artifact, tenant) then None
    else
      var links := WithoutArtifact(t.LinksOf(id), artifact);
      if |links| == |t.LinksOf(id)| then None
      else Some(Rebuild(t.(links := t.links[id := links]), id, tenant))
  }

  /** The part of ConfirmUpload that changes a release. */
  function AddUploaded(t: Tables, id: string, artifact: string): Option<Tables>
    requires id in t.releases && artifact in t.artifacts
  {
    var manifest := AppendEntry(t.releases[id].manifest, t.artifacts[artifact].name, t.artifacts[artifact].digest);
    if manifest.None? then None
    else
      var links := LinkRuntime(t.LinksOf(id), artifact, t.artifacts[artifact].digest);
      Some(StoreManifest(t, id, manifest.value).(links := t.links[id := links]))
  }

  function ConfirmUpload(t: Tables, sid: string, tenant: string, id: string, artifact: Artifact,
                         now: int): Option<Tables> {
    if sid !in t.sessions || t.sessions[sid].tenant != tenant then None
    else
      var session := t.sessions[sid];
      if session.status == SessionCompleted && session.artifact.Some? then
        if IsArtifactOf(t, session.artifact.value, tenant) then Some(t) else None
      else if session.status !in {SessionPending, SessionUploading} || !(now < session.expiresAt) then None
      else if session.release.Some? && !IsDraftOf(t, session.release.value, tenant) then None
      else
        var stored := StoreArtifact(t, id, artifact.(tenant := tenant));
        if stored.None? || stored.value.1 !in stored.value.0.artifacts then None
        else
          var (t1, aid) := stored.value;
          var t2 := if session.release.None? then Some(t1) else AddUploaded(t1, session.release.value, aid);
          if t2.None? then None
          else
            var completed := session.(status := SessionCompleted, artifact := Some(aid));
            Some(t2.value.(sessions := t.sessions[sid := completed]))
  }

  function Publish(t: Tables, id: string, tenant: string): Option<Tables> {
    if !IsDraftOf(t, id, tenant) || t.LinksOf(id) == [] then None
    else if t.releases[id].manifest.artifacts.Null? || t.releases[id].manifest.artifacts.Malformed? then None
    else if |t.releases[id].manifest.Entries()| != |t.LinksOf(id)| then None
    else if exists k :: 0 <= k < |t.LinksOf(id)| && t.LinksOf(id)[k].artifact in t.artifacts
                        && !t.artifacts[t.LinksOf(id)[k].artifact].Usable() then None
    else Some(t.(releases := t.releases[id := t.releases[id].(status := Published)]))
  }
}
