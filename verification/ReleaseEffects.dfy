/**
 What each release transaction accepts and what it leaves behind, told in terms of rows, entries and
 digests: when it commits, what the release then holds, and that everything else is as it was.
 */
module ReleaseEffects {
  import opened Options
  import opened ReleaseTables
  import opened ReleaseRuns

  /** Artifacts, sessions and all releases but one are as they were. */
  ghost predicate OnlyRelease(t: Tables, t': Tables, id: string) {
    && t'.artifacts == t.artifacts && t'.byDigest == t.byDigest && t'.sessions == t.sessions
    && forall other :: other != id ==> SameRelease(t, t', other)
  }

  lemma OneReleaseIsOnly(t: Tables, t': Tables, id: string, r: Release, links: seq<Link>)
    requires t' == t.(releases := t.releases[id := r], links := t.links[id := links])
    ensures OnlyRelease(t, t', id) && id in t'.releases && t'.releases[id] == r && t'.LinksOf(id) == links
  {}

  /** The release keeps its tenant, status and the rest of its manifest. */
  predicate SameHead(t: Tables, t': Tables, id: string) {
    && id in t.releases && id in t'.releases
    && t'.releases[id].tenant == t.releases[id].tenant && t'.releases[id].status == t.releases[id].status
    && t'.releases[id].manifest.otherFields == t.releases[id].manifest.otherFields
  }

  /** The manifest lists the rows, each by its artifact's name, its digest and its purpose. */
  predicate ListsRows(t: Tables, id: string)
    requires id in t.releases
  {
    var entries, rows := t.releases[id].manifest.Entries(), t.LinksOf(id);
    && |entries| == |rows|
    && forall k :: 0 <= k < |rows| ==>
         && rows[k].artifact in t.artifacts
         && entries[k] == Entry(t.artifacts[rows[k].artifact].name, rows[k].digest, rows[k].purpose)
  }

  predicate Names(links: seq<Link>, artifact: string) {
    exists k :: 0 <= k < |links| && links[k].artifact == artifact
  }

  lemma {:induction false} EntriesListRows(artifacts: map<string, Artifact>, tenant: string, links: seq<Link>)
    requires forall k :: 0 <= k < |links| ==> LinkOk(artifacts, tenant, links[k])
    ensures var entries := EntriesOf(artifacts, tenant, links);
      && |entries| == |links|
      && forall k :: 0 <= k < |links| ==>
           links[k].artifact in artifacts
           && entries[k] == Entry(artifacts[links[k].artifact].name, links[k].digest, links[k].purpose)
  {
    if links != [] {
      var front := links[..|links| - 1];
      EntriesListRows(artifacts, tenant, front);
      assert LinkOk(artifacts, tenant, links[|links| - 1]);
      forall k | 0 <= k < |front| ensures links[k].artifact in artifacts { assert links[k] == front[k]; }
    }
  }

  /** Rebuilding touches the one manifest and makes it list the rows. */
  lemma RebuildEffect(t: Tables, id: string, links: seq<Link>)
    requires TablesOk(t) && id in t.releases && LinksOk(t.artifacts, t.releases[id].tenant, links)
    ensures var t' := Rebuild(t.(links := t.links[id := links]), id, t.releases[id].tenant);
      && OnlyRelease(t, t', id) && SameHead(t, t', id) && t'.LinksOf(id) == links && ListsRows(t', id)
  {
    IncreasingIsOrdered(links);
    EntriesListRows(t.artifacts, t.releases[id].tenant, links);
  }

  /** The rows after adding a runtime row behind all others, or none when the artifact has one. */
  ghost predicate GainsRuntimeRow(rows: seq<Link>, rows': seq<Link>, artifact: string, digest: string) {
    if HasLink(rows, artifact, RUNTIME) then rows' == rows
    else
      exists position ::
        && (forall k :: 0 <= k < |rows| ==> rows[k].position < position)
        && rows' == rows + [Link(artifact, RUNTIME, position, digest)]
  }

  lemma LinkingGainsRow(rows: seq<Link>, artifact: string, digest: string)
    ensures GainsRuntimeRow(rows, LinkRuntime(rows, artifact, digest), artifact, digest)
  {
    var position := NextPosition(rows);
    assert forall k :: 0 <= k < |rows| ==> rows[k].position < position;
  }

  // ---- attaching and detaching ----------------------------------------------------------------

  lemma AttachExactlyWhen(t: Tables, id: string, artifact: string, tenant: string)
    ensures AttachToRelease(t, id, artifact, tenant).Some? <==>
      && id in t.releases && t.releases[id].tenant == tenant && t.releases[id].status == Draft
      && artifact in t.artifacts && t.artifacts[artifact].tenant == tenant
      && t.artifacts[artifact].verification == Verified && t.artifacts[artifact].lifecycle == ActiveArtifact
  {}

  /** Attaching adds one runtime row behind all others, or none when the artifact has one already. */
  lemma AttachEffect(t: Tables, id: string, artifact: string, tenant: string)
    requires TablesOk(t) && AttachToRelease(t, id, artifact, tenant).Some?
    ensures var t', rows := AttachToRelease(t, id, artifact, tenant).value, t.LinksOf(id);
      && OnlyRelease(t, t', id) && SameHead(t, t', id) && ListsRows(t', id)
      && GainsRuntimeRow(rows, t'.LinksOf(id), artifact, t.artifacts[artifact].digest)
  {
    assert ReleaseOk(t, id);
    LinkRuntimeKeepsOk(t.artifacts, tenant, t.LinksOf(id), artifact);
    LinkingGainsRow(t.LinksOf(id), artifact, t.artifacts[artifact].digest);
    RebuildEffect(t, id, LinkRuntime(t.LinksOf(id), artifact, t.artifacts[artifact].digest));
  }

  lemma {:induction false} WithoutIsShorter(links: seq<Link>, artifact: string)
    ensures |WithoutArtifact(links, artifact)| <= |links|
    ensures |WithoutArtifact(links, artifact)| < |links| <==> Names(links, artifact)
  {
    if links != [] {
      var front := links[..|links| - 1];
      WithoutIsShorter(front, artifact);
      if Names(front, artifact) {
        var k :| 0 <= k < |front| && front[k].artifact == artifact;
        assert links[k].artifact == artifact;
      }
      if Names(links, artifact) && links[|links| - 1].artifact != artifact {
        var k :| 0 <= k < |links| && links[k].artifact == artifact;
        assert front[k].artifact == artifact;
      }
    }
  }

  lemma DetachExactlyWhen(t: Tables, id: string, artifact: string, tenant: string)
    ensures DetachFromRelease(t, id, artifact, tenant).Some? <==>
      && id in t.releases && t.releases[id].tenant == tenant && t.releases[id].status == Draft
      && artifact in t.artifacts && t.artifacts[artifact].tenant == tenant
      && Names(t.LinksOf(id), artifact)
  {
    WithoutIsShorter(t.LinksOf(id), artifact);
  }

  /** Detaching leaves exactly the rows of other artifacts, still by increasing position. */
  lemma DetachEffect(t: Tables, id: string, artifact: string, tenant: string)
    requires TablesOk(t) && DetachFromRelease(t, id, artifact, tenant).Some?
    ensures var t' := DetachFromRelease(t, id, artifact, tenant).value;
      && OnlyRelease(t, t', id) && SameHead(t, t', id) && ListsRows(t', id)
      && Increasing(t.LinksOf(id)) && Increasing(t'.LinksOf(id))
      && forall row :: row in t'.LinksOf(id) <==> row in t.LinksOf(id) && row.artifact != artifact
  {
    assert ReleaseOk(t, id);
    WithoutKeepsOk(t.artifacts, tenant, t.LinksOf(id), artifact);
    WithoutMembers(t.LinksOf(id), artifact);
    RebuildEffect(t, id, WithoutArtifact(t.LinksOf(id), artifact));
  }

  // ---- creating, replacing and deleting -------------------------------------------------------

  function PurposeOf(ref: Entry): string { if ref.purpose == "" then RUNTIME else ref.purpose }

  /** The digest belongs to a verified and active artifact of the tenant. */
  predicate Resolves(t: Tables, tenant: string, digest: string) {
    exists a :: a in t.artifacts && t.artifacts[a].tenant == tenant && t.artifacts[a].digest == digest
                && t.artifacts[a].Usable()
  }

  lemma ResolvesByIndex(t: Tables, tenant: string, ref: Entry, position: nat)
    requires IndexOk(t)
    ensures LinkFor(t, tenant, ref, position).Some? <==> Resolves(t, tenant, ref.digest)
  {
    var key := DigestKey(tenant, ref.digest);
    if Resolves(t, tenant, ref.digest) {
      var a :| a in t.artifacts && t.artifacts[a].tenant == tenant && t.artifacts[a].digest == ref.digest
               && t.artifacts[a].Usable();
      assert KeyOf(t.artifacts[a]) == key;
    }
  }

  predicate SameSlot(a: Entry, b: Entry) { a.digest == b.digest && PurposeOf(a) == PurposeOf(b) }

  /** The first n references all resolve, and no two of them name one digest for one purpose. */
  ghost predicate Attachable(t: Tables, tenant: string, refs: seq<Entry>, n: nat)
    requires n <= |refs|
  {
    && (forall k :: 0 <= k < n ==> Resolves(t, tenant, refs[k].digest))
    && (forall j, k :: 0 <= j < k < n ==> !SameSlot(refs[j], refs[k]))
  }

  lemma ClashExactlyWhen(t: Tables, tenant: string, refs: seq<Entry>, n: nat)
    requires IndexOk(t) && n < |refs| && LinksFor(t, tenant, refs, n).Some?
    requires LinkFor(t, tenant, refs[n], n).Some?
    ensures var link := LinkFor(t, tenant, refs[n], n).value;
      HasLink(LinksFor(t, tenant, refs, n).value, link.artifact, link.purpose) <==>
        exists j :: 0 <= j < n && SameSlot(refs[j], refs[n])
  {
    var links, link := LinksFor(t, tenant, refs, n).value, LinkFor(t, tenant, refs[n], n).value;
    LinksForRefs(t, tenant, refs, n);
    assert LinkOk(t.artifacts, tenant, link);
    forall j | 0 <= j < n
      ensures links[j].artifact == link.artifact && links[j].purpose == link.purpose <==> SameSlot(refs[j], refs[n])
    {
      assert LinkOk(t.artifacts, tenant, links[j]);
      assert KeyOf(t.artifacts[links[j].artifact]) == DigestKey(tenant, refs[j].digest);
      assert KeyOf(t.artifacts[link.artifact]) == DigestKey(tenant, refs[n].digest);
    }
    if exists j :: 0 <= j < n && SameSlot(refs[j], refs[n]) {
      var j :| 0 <= j < n && SameSlot(refs[j], refs[n]);
      assert links[j].artifact == link.artifact && links[j].purpose == link.purpose;
    }
  }

  lemma {:induction false} RowsExactlyWhen(t: Tables, tenant: string, refs: seq<Entry>, n: nat)
    requires IndexOk(t) && n <= |refs|
    ensures LinksFor(t, tenant, refs, n).Some? <==> Attachable(t, tenant, refs, n)
  {
    if n > 0 {
      RowsExactlyWhen(t, tenant, refs, n - 1);
      ResolvesByIndex(t, tenant, refs[n - 1], n - 1);
      if Attachable(t, tenant, refs, n - 1) && Resolves(t, tenant, refs[n - 1].digest) {
        ClashExactlyWhen(t, tenant, refs, n - 1);
      }
    }
  }

  /** A manifest whose artifact list decodes, names only SHA-256 digests, and can be attached. */
  ghost predicate Storable(t: Tables, tenant: string, manifest: Manifest) {
    var entries := manifest.Entries();
    && !manifest.artifacts.Malformed? && (forall k :: 0 <= k < |entries| ==> IsDigest(entries[k].digest))
    && Attachable(t, tenant, entries, |entries|)
  }

  /** Creating commits exactly for a new id and a manifest whose entries all resolve, without clash. */
  lemma CreateExactlyWhen(t: Tables, id: string, tenant: string, manifest: Manifest)
    requires IndexOk(t)
    ensures CreateRelease(t, id, tenant, manifest).Some? <==> id !in t.releases && Storable(t, tenant, manifest)
  {
    RowsExactlyWhen(t, tenant, manifest.Entries(), |manifest.Entries()|);
  }

  lemma PatchExactlyWhen(t: Tables, id: string, tenant: string, manifest: Manifest)
    requires IndexOk(t)
    ensures PatchRelease(t, id, tenant, manifest).Some? <==>
      && id in t.releases && t.releases[id].tenant == tenant && t.releases[id].status == Draft
      && Storable(t, tenant, manifest)
  {
    RowsExactlyWhen(t, tenant, manifest.Entries(), |manifest.Entries()|);
  }

  /** The release is the tenant's draft with this manifest and one row for each entry, in order. */
  predicate HoldsDraft(t: Tables, id: string, tenant: string, manifest: Manifest) {
    && id in t.releases && t.releases[id] == Release(tenant, Draft, manifest, HashOf(manifest))
    && |t.LinksOf(id)| == |manifest.Entries()|
    && forall k :: 0 <= k < |manifest.Entries()| ==>
         RowFor(t.artifacts, tenant, manifest.Entries()[k], k, t.LinksOf(id)[k])
  }

  /** The row at a position: the tenant's artifact with the entry's digest, under the entry's purpose. */
  predicate RowFor(artifacts: map<string, Artifact>, tenant: string, entry: Entry, position: nat, row: Link) {
    && row.position == position && row.digest == entry.digest && row.purpose == PurposeOf(entry)
    && row.artifact in artifacts && artifacts[row.artifact].tenant == tenant
    && artifacts[row.artifact].digest == entry.digest && artifacts[row.artifact].Usable()
  }

  lemma RowsForEntries(t: Tables, tenant: string, manifest: Manifest, links: seq<Link>)
    requires IndexOk(t) && References(manifest).Some?
    requires LinksFor(t, tenant, manifest.Entries(), |manifest.Entries()|) == Some(links)
    ensures |links| == |manifest.Entries()|
    ensures forall k :: 0 <= k < |links| ==> RowFor(t.artifacts, tenant, manifest.Entries()[k], k, links[k])
  {
    LinksForRefs(t, tenant, manifest.Entries(), |manifest.Entries()|);
    forall k | 0 <= k < |links| ensures RowFor(t.artifacts, tenant, manifest.Entries()[k], k, links[k]) {
      assert LinkOk(t.artifacts, tenant, links[k]);
    }
  }

  lemma CreateEffect(t: Tables, id: string, tenant: string, manifest: Manifest)
    requires TablesOk(t) && CreateRelease(t, id, tenant, manifest).Some?
    ensures var t' := CreateRelease(t, id, tenant, manifest).value;
            OnlyRelease(t, t', id) && HoldsDraft(t', id, tenant, manifest)
  {
    var t' := CreateRelease(t, id, tenant, manifest).value;
    OneReleaseIsOnly(t, t', id, Release(tenant, Draft, manifest, HashOf(manifest)), t'.links[id]);
    RowsForEntries(t, tenant, manifest, t'.LinksOf(id));
  }

  lemma PatchEffect(t: Tables, id: string, tenant: string, manifest: Manifest)
    requires TablesOk(t) && PatchRelease(t, id, tenant, manifest).Some?
    ensures var t' := PatchRelease(t, id, tenant, manifest).value;
            OnlyRelease(t, t', id) && HoldsDraft(t', id, tenant, manifest)
  {
    var t' := PatchRelease(t, id, tenant, manifest).value;
    OneReleaseIsOnly(t, t', id, Release(tenant, Draft, manifest, HashOf(manifest)), t'.links[id]);
    RowsForEntries(t, tenant, manifest, t'.LinksOf(id));
  }

  /** Deleting commits exactly for a draft; the release and its rows go, and sessions let go of it. */
  lemma DeleteEffect(t: Tables, id: string, tenant: string)
    ensures DeleteRelease(t, id, tenant).Some? <==>
              id in t.releases && t.releases[id].tenant == tenant && t.releases[id].status == Draft
    ensures DeleteRelease(t, id, tenant).Some? ==>
      var t' := DeleteRelease(t, id, tenant).value;
      && id !in t'.releases && t'.LinksOf(id) == [] && OnlyRelease(t.(sessions := t'.sessions), t', id)
      && t'.sessions.Keys == t.sessions.Keys
      && forall s <- t.sessions ::
           && t'.sessions[s].release == (if t.sessions[s].release == Some(id) then None else t.sessions[s].release)
           && t'.sessions[s] == t.sessions[s].(release := t'.sessions[s].release)
  {}

  // ---- publishing -----------------------------------------------------------------------------

  predicate AllUsable(t: Tables, id: string) {
    forall k :: 0 <= k < |t.LinksOf(id)| ==>
      t.LinksOf(id)[k].artifact in t.artifacts && t.artifacts[t.LinksOf(id)[k].artifact].Usable()
  }

  /** In every run a release can be published exactly when it is the tenant's draft with attached
      artifacts, all usable, and its manifest lists just these. */
  lemma PublishExactlyWhen(steps: seq<Step>, id: string, tenant: string)
    ensures var t := After(EMPTY, steps);
      Publish(t, id, tenant).Some? <==>
        && id in t.releases && t.releases[id].tenant == tenant && t.releases[id].status == Draft
        && t.LinksOf(id) != [] && InSync(t, id) && AllUsable(t, id)
  {
    var t := After(EMPTY, steps);
    RunKeepsOk(steps);
    if Publish(t, id, tenant).Some? {
      PublishedListsAttached(steps, id, tenant);
    } else if IsDraftOf(t, id, tenant) && t.LinksOf(id) != [] && InSync(t, id) {
      SyncCounts(t, id);
    }
  }

  lemma SyncCounts(t: Tables, id: string)
    requires TablesOk(t) && id in t.releases && InSync(t, id)
    ensures |t.releases[id].manifest.Entries()| == |t.LinksOf(id)|
  {
    assert ReleaseOk(t, id);
    IncreasingIsOrdered(t.LinksOf(id));
    assert |Listing(t, id)| == |t.releases[id].manifest.Entries()| && |Attached(t, id)| == |t.LinksOf(id)|;
  }

  lemma PublishEffect(t: Tables, id: string, tenant: string)
    requires Publish(t, id, tenant).Some?
    ensures var t' := Publish(t, id, tenant).value;
      && OnlyRelease(t, t', id) && t'.LinksOf(id) == t.LinksOf(id)
      && id in t'.releases && t'.releases[id] == t.releases[id].(status := Published)
  {
    PublishChanges(t, id, tenant);
    OneReleaseIsOnly(t, Publish(t, id, tenant).value, id, t.releases[id].(status := Published), t.LinksOf(id));
  }

  // ---- confirming an upload -------------------------------------------------------------------

  /** The session still waits for its upload and, if it names a release, that is a draft whose
      artifact list can be appended to. */
  predicate Awaits(t: Tables, sid: string, tenant: string, now: int)
    requires sid in t.sessions
  {
    var session := t.sessions[sid];
    && session.status in {SessionPending, SessionUploading} && now < session.expiresAt
    && (session.release.Some? ==>
          && IsDraftOf(t, session.release.value, tenant)
          && !t.releases[session.release.value].manifest.artifacts.Null?
          && !t.releases[session.release.value].manifest.artifacts.Malformed?)
  }

  predicate KnowsDigest(t: Tables, tenant: string, digest: string) {
    exists a :: a in t.artifacts && t.artifacts[a].tenant == tenant && t.artifacts[a].digest == digest
  }

  lemma KnownByIndex(t: Tables, tenant: string, digest: string)
    requires IndexOk(t)
    ensures KnowsDigest(t, tenant, digest) <==> DigestKey(tenant, digest) in t.byDigest
  {
    if KnowsDigest(t, tenant, digest) {
      var a :| a in t.artifacts && t.artifacts[a].tenant == tenant && t.artifacts[a].digest == digest;
      assert KeyOf(t.artifacts[a]) == DigestKey(tenant, digest);
    }
  }

  /** A confirmation commits exactly when its session was completed before and its artifact is still
      there, or the session awaits the upload and the digest is known or the new id is free. */
  lemma ConfirmExactlyWhen(t: Tables, sid: string, tenant: string, id: string, artifact: Artifact, now: int)
    requires TablesOk(t)
    ensures ConfirmUpload(t, sid, tenant, id, artifact, now).Some? <==>
      && sid in t.sessions && t.sessions[sid].tenant == tenant
      && if t.sessions[sid].status == SessionCompleted
         then t.sessions[sid].artifact.Some? && IsArtifactOf(t, t.sessions[sid].artifact.value, tenant)
         else Awaits(t, sid, tenant, now) && (KnowsDigest(t, tenant, artifact.digest) || id !in t.artifacts)
  {
    KnownByIndex(t, tenant, artifact.digest);
  }

  /** Completing a session names an artifact of the tenant with the uploaded digest: the one there was,
      or the uploaded one under its new id. No other artifact or session changes. */
  lemma ConfirmEffect(t: Tables, sid: string, tenant: string, id: string, artifact: Artifact, now: int)
    requires TablesOk(t) && ConfirmUpload(t, sid, tenant, id, artifact, now).Some?
    requires t.sessions[sid].status != SessionCompleted
    ensures var t', session := ConfirmUpload(t, sid, tenant, id, artifact, now).value, t.sessions[sid];
      && sid in t'.sessions && t'.sessions[sid].artifact.Some?
      && var aid := t'.sessions[sid].artifact.value;
         && t'.sessions == t.sessions[sid := session.(status := SessionCompleted, artifact := Some(aid))]
         && aid in t'.artifacts && KeyOf(t'.artifacts[aid]) == DigestKey(tenant, artifact.digest)
         && t'.artifacts == (if KnowsDigest(t, tenant, artifact.digest) then t.artifacts
                             else t.artifacts[id := artifact.(tenant := tenant)])
  {
    KnownByIndex(t, tenant, artifact.digest);
    var stored := StoreArtifact(t, id, artifact.(tenant := tenant)).value;
    StoreArtifactKeepsOk(t, id, artifact.(tenant := tenant));
    assert KeyOf(stored.0.artifacts[stored.1]) == DigestKey(tenant, artifact.digest);
  }

  /** Nor does any release but the session's own. */
  lemma ConfirmLeavesOthers(t: Tables, sid: string, tenant: string, id: string, artifact: Artifact, now: int,
                            other: string)
    requires ConfirmUpload(t, sid, tenant, id, artifact, now).Some? && t.sessions[sid].release != Some(other)
    ensures SameRelease(t, ConfirmUpload(t, sid, tenant, id, artifact, now).value, other)
  {
    UntouchedIsSame(t, Confirms(sid, tenant, id, artifact, now), other);
  }

  predicate Lists(entries: seq<Entry>, digest: string) { exists k :: 0 <= k < |entries| && entries[k].digest == digest }

  lemma ListsByDigest(entries: seq<Entry>, digest: string)
    ensures Lists(entries, digest) <==> digest in EntryDigests(entries)
  {
    if Lists(entries, digest) {
      var k :| 0 <= k < |entries| && entries[k].digest == digest;
      assert EntryDigests(entries)[k] == digest;
    }
  }

  /** A release gains the uploaded artifact as a runtime row at the end, and its manifest an entry
      with the artifact's name, each unless it is there already. */
  lemma UploadEffect(t: Tables, id: string, artifact: string)
    requires id in t.releases && artifact in t.artifacts && AddUploaded(t, id, artifact).Some?
    ensures var t', a := AddUploaded(t, id, artifact).value, t.artifacts[artifact];
      var entries := t.releases[id].manifest.Entries();
      && OnlyRelease(t, t', id) && SameHead(t, t', id)
      && GainsRuntimeRow(t.LinksOf(id), t'.LinksOf(id), artifact, a.digest)
      && t'.releases[id].manifest.Entries()
         == if Lists(entries, a.digest) then entries else entries + [Entry(a.name, a.digest, RUNTIME)]
  {
    var t', a := AddUploaded(t, id, artifact).value, t.artifacts[artifact];
    OneReleaseIsOnly(t, t', id, t'.releases[id], LinkRuntime(t.LinksOf(id), artifact, a.digest));
    LinkingGainsRow(t.LinksOf(id), artifact, a.digest);
    ListsByDigest(t.releases[id].manifest.Entries(), a.digest);
  }
}
