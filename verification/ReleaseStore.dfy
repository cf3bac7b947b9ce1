/**
 The release and artifact repositories as code that changes tables step by step. Every method is
 one transaction: it works on the tables, commits at the end, and leaves them alone on an error.
 */
module ReleaseStore {
  import opened Options
  import opened ReleaseTables

  /** What a transaction promises: it commits the given tables, or reports an error and commits nothing. */
  ghost predicate Commits(before: Tables, result: Option<Tables>, ok: bool, after: Tables) {
    ok == result.Some? && after == if result.Some? then result.value else before
  }

  /** The insertion loop of Create and Update. */
  method InsertReferences(t: Tables, tenant: string, refs: seq<Entry>) returns (links: Option<seq<Link>>)
    ensures links == LinksFor(t, tenant, refs, |refs|)
  {
    var rows: seq<Link> := [];
    for i := 0 to |refs|
      invariant LinksFor(t, tenant, refs, i) == Some(rows)
      invariant LinksFor(t, tenant, refs, |refs|).Some? ==> LinksFor(t, tenant, refs, i).Some?
    {
      var link := LinkFor(t, tenant, refs[i], i);
      if link.None? || HasLink(rows, link.value.artifact, link.value.purpose) {
        NoMoreLinks(t, tenant, refs, i + 1, |refs|);
        return None;
      }
      rows := rows + [link.value];
    }
    return Some(rows);
  }

  lemma {:induction false} NoMoreLinks(t: Tables, tenant: string, refs: seq<Entry>, i: nat, n: nat)
    requires i <= n <= |refs| && LinksFor(t, tenant, refs, i).None?
    ensures LinksFor(t, tenant, refs, n).None?
    decreases n
  {
    if i < n { NoMoreLinks(t, tenant, refs, i, n - 1); }
  }

  /** The row loop of rebuildReleaseManifestArtifacts. */
  method CollectEntries(artifacts: map<string, Artifact>, tenant: string, rows: seq<Link>) returns (entries: seq<Entry>)
    ensures entries == EntriesOf(artifacts, tenant, rows)
  {
    entries := [];
    for i := 0 to |rows|
      invariant entries == EntriesOf(artifacts, tenant, rows[..i])
    {
      assert rows[..i + 1][..i] == rows[..i];
      var row := rows[i];
      if row.artifact in artifacts && artifacts[row.artifact].tenant == tenant {
        entries := entries + [Entry(artifacts[row.artifact].name, row.digest, row.purpose)];
      }
    }
    assert rows[..|rows|] == rows;
  }

  /** The search loop of appendReleaseManifestArtifact. */
  method AppendArtifact(manifest: Manifest, name: string, digest: string) returns (appended: Option<Manifest>)
    ensures appended == AppendEntry(manifest, name, digest)
  {
    if manifest.artifacts.Null? || manifest.artifacts.Malformed? { return None; }
    var entries := manifest.Entries();
    for i := 0 to |entries|
      invariant forall k :: 0 <= k < i ==> entries[k].digest != digest
    {
      if entries[i].digest == digest {
        assert EntryDigests(entries)[i] == digest;
        return Some(manifest);
      }
    }
    return Some(manifest.(artifacts := Listed(entries + [Entry(name, digest, RUNTIME)])));
  }

  class AppStore {
    var artifacts: map<string, Artifact>
    var byDigest: map<DigestKey, string>
    var releases: map<string, Release>
    var links: map<string, seq<Link>>
    var sessions: map<string, Session>

    constructor ()
      ensures State() == EMPTY
    {
      artifacts, byDigest, releases, links, sessions := map[], map[], map[], map[], map[];
    }

    function State(): Tables
      reads this
    {
      Tables(artifacts, byDigest, releases, links, sessions)
    }

    method Create(id: string, tenant: string, manifest: Manifest) returns (ok: bool)
      modifies this
      ensures Commits(old(State()), CreateRelease(old(State()), id, tenant, manifest), ok, State())
    {
      var refs := References(manifest);
      if refs.None? || id in releases { return false; }
      var rows := InsertReferences(State(), tenant, refs.value);
      if rows.None? { return false; }
      releases := releases[id := Release(tenant, Draft, manifest, HashOf(manifest))];
      links := links[id := rows.value];
      return true;
    }

    /** The PATCH handler: the draft guard, then ReleaseRepo.Update. */
    method Update(id: string, tenant: string, manifest: Manifest) returns (ok: bool)
      modifies this
      ensures Commits(old(State()), PatchRelease(old(State()), id, tenant, manifest), ok, State())
    {
      if !IsDraftOf(State(), id, tenant) { return false; }
      var refs := References(manifest);
      if refs.None? { return false; }
      var rows := InsertReferences(State(), tenant, refs.value);
      if rows.None? { return false; }
      releases := releases[id := releases[id].(manifest := manifest, manifestDigest := HashOf(manifest))];
      links := links[id := rows.value];
      return true;
    }

    method Attach(id: string, artifact: string, tenant: string) returns (ok: bool)
      modifies this
      ensures Commits(old(State()), AttachToRelease(old(State()), id, artifact, tenant), ok, State())
    {
      if !IsDraftOf(State(), id, tenant) || !IsArtifactOf(State(), artifact, tenant) { return false; }
      if !artifacts[artifact].Usable() { return false; }
      var rows := State().LinksOf(id);
      if !HasLink(rows, artifact, RUNTIME) {
        rows := rows + [Link(artifact, RUNTIME, NextPosition(rows), artifacts[artifact].digest)];
      }
      links := links[id := rows];
      RebuildManifest(id, tenant);
      return true;
    }

    method Detach(id: string, artifact: string, tenant: string) returns (ok: bool)
      modifies this
      ensures Commits(old(State()), DetachFromRelease(old(State()), id, artifact, tenant), ok, State())
    {
      if !IsDraftOf(State(), id, tenant) || !IsArtifactOf(State(), artifact, tenant) { return false; }
      var rows := WithoutArtifact(State().LinksOf(id), artifact);
      if |rows| == |State().LinksOf(id)| { return false; }
      links := links[id := rows];
      RebuildManifest(id, tenant);
      return true;
    }

    method RebuildManifest(id: string, tenant: string)
      requires id in releases
      modifies this
      ensures State() == Rebuild(old(State()), id, tenant)
    {
      var entries := CollectEntries(artifacts, tenant, OrderByPosition(State().LinksOf(id)));
      var manifest := releases[id].manifest.(artifacts := Listed(entries));
      releases := releases[id := releases[id].(manifest := manifest, manifestDigest := HashOf(manifest))];
    }

    method Confirm(sid: string, tenant: string, id: string, artifact: Artifact, now: int) returns (ok: bool)
      modifies this
      ensures Commits(old(State()), ConfirmUpload(old(State()), sid, tenant, id, artifact, now), ok, State())
    {
      if sid !in sessions || sessions[sid].tenant != tenant { return false; }
      var session := sessions[sid];
      if session.status == SessionCompleted && session.artifact.Some? {
        return IsArtifactOf(State(), session.artifact.value, tenant);
      }
      if session.status != SessionPending && session.status != SessionUploading { return false; }
      if !(now < session.expiresAt) { return false; }
      if session.release.Some? && !IsDraftOf(State(), session.release.value, tenant) { return false; }
      var stored := StoreArtifact(State(), id, artifact.(tenant := tenant));
      if stored.None? { return false; }
      var (t1, aid) := stored.value;
      if aid !in t1.artifacts { return false; }
      if session.release.Some? {
        var rid := session.release.value;
        var manifest := AppendArtifact(releases[rid].manifest, t1.artifacts[aid].name, t1.artifacts[aid].digest);
        if manifest.None? { return false; }
        var rows := State().LinksOf(rid);
        if !HasLink(rows, aid, RUNTIME) {
          rows := rows + [Link(aid, RUNTIME, NextPosition(rows), t1.artifacts[aid].digest)];
        }
        var release := releases[rid].(manifest := manifest.value, manifestDigest := HashOf(manifest.value));
        releases := releases[rid := release];
        links := links[rid := rows];
      }
      artifacts, byDigest := t1.artifacts, t1.byDigest;
      sessions := sessions[sid := session.(status := SessionCompleted, artifact := Some(aid))];
      return true;
    }

    /** The conditional UPDATE of ReleaseRepo.Publish. */
    method PublishDraft(id: string, tenant: string) returns (ok: bool)
      modifies this
      ensures Commits(old(State()), Publish(old(State()), id, tenant), ok, State())
    {
      if !IsDraftOf(State(), id, tenant) { return false; }
      var rows, manifest := State().LinksOf(id), releases[id].manifest;
      if rows == [] || manifest.artifacts.Null? || manifest.artifacts.Malformed? { return false; }
      if |manifest.Entries()| != |rows| { return false; }
      for i := 0 to |rows|
        invariant forall k :: 0 <= k < i ==> rows[k].artifact in artifacts ==> artifacts[rows[k].artifact].Usable()
      {
        if rows[i].artifact in artifacts && !artifacts[rows[i].artifact].Usable() { return false; }
      }
      releases := releases[id := releases[id].(status := Published)];
      return true;
    }
  }
}
