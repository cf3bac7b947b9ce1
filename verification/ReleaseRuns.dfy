/**
 What every sequence of release transactions keeps: the manifest and the link rows of a release
 stay two copies of one list, publishing is safe, and a published release no longer changes.
 */
module ReleaseRuns {
  import opened Options
  import opened ReleaseTables

  // ---- lists ----------------------------------------------------------------------------------

  /** a is b with some elements left out. */
  predicate Subsequence(a: seq<string>, b: seq<string>) {
    a == [] ||
    (b != [] &&
     ((a[|a| - 1] == b[|b| - 1] && Subsequence(a[..|a| - 1], b[..|b| - 1])) || Subsequence(a, b[..|b| - 1])))
  }

  lemma {:induction false} SubsequenceReflexive(a: seq<string>)
    ensures Subsequence(a, a)
  {
    if a != [] { SubsequenceReflexive(a[..|a| - 1]); }
  }

  lemma {:induction false} SubsequenceOfSameLength(a: seq<string>, b: seq<string>)
    requires Subsequence(a, b)
    ensures |a| <= |b|
    ensures |a| == |b| ==> a == b
  {
    if a != [] {
      if a[|a| - 1] == b[|b| - 1] && Subsequence(a[..|a| - 1], b[..|b| - 1]) {
        SubsequenceOfSameLength(a[..|a| - 1], b[..|b| - 1]);
        assert a == a[..|a| - 1] + [a[|a| - 1]] && b == b[..|b| - 1] + [b[|b| - 1]];
      } else {
        SubsequenceOfSameLength(a, b[..|b| - 1]);
      }
    }
  }

  lemma SubsequenceGrows(a: seq<string>, b: seq<string>, x: string)
    requires Subsequence(a, b)
    ensures Subsequence(a, b + [x]) && Subsequence(a + [x], b + [x])
  {
    assert (a + [x])[..|a|] == a && (b + [x])[..|b|] == b;
  }

  lemma {:induction false} SubsequenceMembers(a: seq<string>, b: seq<string>, x: string)
    requires Subsequence(a, b) && x in a
    ensures x in b
  {
    var front := b[..|b| - 1];
    assert b == front + [b[|b| - 1]];
    if Subsequence(a, front) {
      SubsequenceMembers(a, front, x);
    } else if x in a[..|a| - 1] {
      SubsequenceMembers(a[..|a| - 1], front, x);
    } else {
      assert a == a[..|a| - 1] + [a[|a| - 1]];
    }
  }

  // ---- the links of one release ---------------------------------------------------------------

  predicate Increasing(links: seq<Link>) {
    forall j, k :: 0 <= j < k < |links| ==> links[j].position < links[k].position
  }

  lemma InsertAtEnd(links: seq<Link>, link: Link)
    requires links == [] || links[|links| - 1].position <= link.position
    ensures InsertByPosition(links, link) == links + [link]
  {}

  lemma {:induction false} IncreasingIsOrdered(links: seq<Link>)
    requires Increasing(links)
    ensures OrderByPosition(links) == links
  {
    if links != [] {
      var front, last := links[..|links| - 1], links[|links| - 1];
      IncreasingIsOrdered(front);
      InsertAtEnd(front, last);
      assert front + [last] == links;
    }
  }

  predicate LinkOk(artifacts: map<string, Artifact>, tenant: string, link: Link) {
    link.artifact in artifacts && artifacts[link.artifact].tenant == tenant
    && artifacts[link.artifact].digest == link.digest
  }

  /** An earlier and a later link of one release: positions increase, and no artifact is linked
      twice under one purpose. */
  predicate Precedes(a: Link, b: Link) {
    a.position < b.position && (a.artifact != b.artifact || a.purpose != b.purpose)
  }

  predicate LinksOk(artifacts: map<string, Artifact>, tenant: string, links: seq<Link>) {
    && (forall k :: 0 <= k < |links| ==> LinkOk(artifacts, tenant, links[k]))
    && (forall j, k :: 0 <= j < k < |links| ==> Precedes(links[j], links[k]))
  }

  lemma {:induction false} RebuiltDigests(artifacts: map<string, Artifact>, tenant: string, links: seq<Link>)
    requires forall k :: 0 <= k < |links| ==> LinkOk(artifacts, tenant, links[k])
    ensures EntryDigests(EntriesOf(artifacts, tenant, links)) == LinkDigests(links)
  {
    if links != [] {
      var front, last := links[..|links| - 1], links[|links| - 1];
      RebuiltDigests(artifacts, tenant, front);
      assert LinkOk(artifacts, tenant, links[|links| - 1]);
      assert LinkDigests(links) == LinkDigests(front) + [last.digest];
      var entries := EntriesOf(artifacts, tenant, front);
      assert EntryDigests(entries + [Entry(artifacts[last.artifact].name, last.digest, last.purpose)])
             == EntryDigests(entries) + [last.digest];
    }
  }

  lemma LinkRuntimeKeepsOk(artifacts: map<string, Artifact>, tenant: string, links: seq<Link>, artifact: string)
    requires LinksOk(artifacts, tenant, links) && artifact in artifacts && artifacts[artifact].tenant == tenant
    ensures LinksOk(artifacts, tenant, LinkRuntime(links, artifact, artifacts[artifact].digest))
  {
    if !HasLink(links, artifact, RUNTIME) {
      var link := Link(artifact, RUNTIME, NextPosition(links), artifacts[artifact].digest);
      assert LinkOk(artifacts, tenant, link);
    }
  }

  /** The surviving links are the old ones of other artifacts. */
  lemma {:induction false} WithoutMembers(links: seq<Link>, artifact: string)
    ensures forall link :: link in WithoutArtifact(links, artifact) <==> link in links && link.artifact != artifact
  {
    if links != [] {
      WithoutMembers(links[..|links| - 1], artifact);
      assert links == links[..|links| - 1] + [links[|links| - 1]];
    }
  }

  /** They keep their order, so their positions still increase. */
  lemma {:induction false} WithoutKeepsOk(artifacts: map<string, Artifact>, tenant: string, links: seq<Link>,
                                          artifact: string)
    requires LinksOk(artifacts, tenant, links)
    ensures LinksOk(artifacts, tenant, WithoutArtifact(links, artifact))
  {
    if links != [] {
      var front, last := links[..|links| - 1], links[|links| - 1];
      WithoutKeepsOk(artifacts, tenant, front, artifact);
      if last.artifact != artifact {
        var kept := WithoutArtifact(front, artifact);
        WithoutMembers(front, artifact);
        assert LinkOk(artifacts, tenant, links[|links| - 1]);
        forall k | 0 <= k < |kept| ensures Precedes(kept[k], last) {
          assert kept[k] in kept;
          var j :| 0 <= j < |front| && front[j] == kept[k];
          assert links[j] == kept[k];
        }
      }
    }
  }

  // ---- what every run keeps -------------------------------------------------------------------

  function KeyOf(artifact: Artifact): DigestKey { DigestKey(artifact.tenant, artifact.digest) }

  predicate IndexOk(t: Tables) {
    && (forall key <- t.byDigest :: t.byDigest[key] in t.artifacts && KeyOf(t.artifacts[t.byDigest[key]]) == key)
    && (forall id <- t.artifacts :: KeyOf(t.artifacts[id]) in t.byDigest && t.byDigest[KeyOf(t.artifacts[id])] == id)
  }

  function ListingOf(r: Release): seq<string> { EntryDigests(r.manifest.Entries()) }

  function AttachedIn(links: seq<Link>): seq<string> { LinkDigests(OrderByPosition(links)) }

  function Listing(t: Tables, id: string): seq<string>
    requires id in t.releases
  {
    ListingOf(t.releases[id])
  }

  function Attached(t: Tables, id: string): seq<string> { AttachedIn(t.LinksOf(id)) }

  /** The two copies of the artifact list agree. */
  predicate InSync(t: Tables, id: string)
    requires id in t.releases
  {
    Listing(t, id) == Attached(t, id)
  }

  /** What holds of every release for all purposes: the manifest may leave out a link only when it
      lists the same digest elsewhere. */
  predicate ListingOk(listing: seq<string>, attached: seq<string>) {
    Subsequence(listing, attached) && forall digest <- attached :: digest in listing
  }

  predicate RecordOk(artifacts: map<string, Artifact>, r: Release, links: seq<Link>) {
    && LinksOk(artifacts, r.tenant, links)
    && r.manifestDigest == HashOf(r.manifest)
    && ListingOk(ListingOf(r), AttachedIn(links))
  }

  predicate ReleaseOk(t: Tables, id: string)
    requires id in t.releases
  {
    RecordOk(t.artifacts, t.releases[id], t.LinksOf(id))
  }

  predicate TablesOk(t: Tables) {
    && IndexOk(t)
    && t.links.Keys <= t.releases.Keys
    && forall id <- t.releases :: ReleaseOk(t, id)
  }

  /** Artifacts may be added and their states may change, but tenant and digest stay. */
  predicate ArtifactsKept(before: map<string, Artifact>, after: map<string, Artifact>) {
    forall id <- before :: id in after && KeyOf(after[id]) == KeyOf(before[id])
  }

  predicate SameRelease(t: Tables, t': Tables, id: string) {
    && (id in t'.releases <==> id in t.releases) && (id in t.releases ==> t'.releases[id] == t.releases[id])
    && t'.LinksOf(id) == t.LinksOf(id)
  }

  lemma LinksStayOk(artifacts: map<string, Artifact>, artifacts': map<string, Artifact>, tenant: string,
                    links: seq<Link>)
    requires LinksOk(artifacts, tenant, links) && ArtifactsKept(artifacts, artifacts')
    ensures LinksOk(artifacts', tenant, links)
  {
    forall k | 0 <= k < |links| ensures LinkOk(artifacts', tenant, links[k]) {
      assert LinkOk(artifacts, tenant, links[k]);
    }
  }

  lemma OtherReleaseStaysOk(t: Tables, t': Tables, id: string)
    requires id in t.releases && ReleaseOk(t, id) && SameRelease(t, t', id) && ArtifactsKept(t.artifacts, t'.artifacts)
    ensures ReleaseOk(t', id)
  {
    LinksStayOk(t.artifacts, t'.artifacts, t.releases[id].tenant, t.LinksOf(id));
  }

  /** Changes to artifacts and sessions alone keep every release. */
  lemma NoReleaseChanges(t: Tables, t': Tables)
    requires TablesOk(t) && IndexOk(t') && ArtifactsKept(t.artifacts, t'.artifacts)
    requires t'.releases == t.releases && t'.links == t.links
    ensures TablesOk(t')
  {
    forall id <- t'.releases ensures ReleaseOk(t', id) { OtherReleaseStaysOk(t, t', id); }
  }

  /** A transaction that stores one release and its links keeps the others. */
  lemma OneReleaseChanges(t: Tables, t': Tables, id: string, r: Release, links: seq<Link>)
    requires TablesOk(t) && RecordOk(t.artifacts, r, links)
    requires t' == t.(releases := t.releases[id := r], links := t.links[id := links], sessions := t'.sessions)
    ensures TablesOk(t')
  {
    forall other <- t'.releases ensures ReleaseOk(t', other) {
      if other != id { OtherReleaseStaysOk(t, t', other); }
    }
  }

  // ---- each transaction -----------------------------------------------------------------------

  lemma SyncIsOk(listing: seq<string>, attached: seq<string>)
    requires listing == attached
    ensures ListingOk(listing, attached)
  {
    SubsequenceReflexive(listing);
  }

  /** The rows made from references: valid, in order, with the references' digests and purposes. */
  lemma {:induction false} LinksForRefs(t: Tables, tenant: string, refs: seq<Entry>, n: nat)
    requires IndexOk(t) && n <= |refs| && LinksFor(t, tenant, refs, n).Some?
    ensures var links := LinksFor(t, tenant, refs, n).value;
      && |links| == n && LinksOk(t.artifacts, tenant, links)
      && forall k :: 0 <= k < n ==>
           links[k].position == k && links[k].digest == refs[k].digest && t.artifacts[links[k].artifact].Usable()
           && links[k].purpose == if refs[k].purpose == "" then RUNTIME else refs[k].purpose
  {
    if n > 0 {
      LinksForRefs(t, tenant, refs, n - 1);
      var before, link := LinksFor(t, tenant, refs, n - 1).value, LinkFor(t, tenant, refs[n - 1], n - 1).value;
      assert LinkOk(t.artifacts, tenant, link);
      assert !HasLink(before, link.artifact, link.purpose);
    }
  }

  lemma ReferencedRecord(t: Tables, tenant: string, manifest: Manifest, links: seq<Link>)
    requires IndexOk(t) && References(manifest).Some?
    requires LinksFor(t, tenant, References(manifest).value, |References(manifest).value|) == Some(links)
    ensures LinksOk(t.artifacts, tenant, links)
    ensures EntryDigests(manifest.Entries()) == AttachedIn(links)
    ensures ListingOk(EntryDigests(manifest.Entries()), AttachedIn(links))
  {
    var refs := References(manifest).value;
    LinksForRefs(t, tenant, refs, |refs|);
    IncreasingIsOrdered(links);
    assert EntryDigests(refs) == LinkDigests(links);
    SyncIsOk(EntryDigests(refs), LinkDigests(links));
  }

  lemma CreateKeepsOk(t: Tables, id: string, tenant: string, manifest: Manifest)
    requires TablesOk(t) && CreateRelease(t, id, tenant, manifest).Some?
    ensures var t' := CreateRelease(t, id, tenant, manifest).value; TablesOk(t') && id in t'.releases && InSync(t', id)
  {
    var t' := CreateRelease(t, id, tenant, manifest).value;
    ReferencedRecord(t, tenant, manifest, t'.links[id]);
    OneReleaseChanges(t, t', id, t'.releases[id], t'.links[id]);
  }

  lemma PatchKeepsOk(t: Tables, id: string, tenant: string, manifest: Manifest)
    requires TablesOk(t) && PatchRelease(t, id, tenant, manifest).Some?
    ensures var t' := PatchRelease(t, id, tenant, manifest).value; TablesOk(t') && id in t'.releases && InSync(t', id)
  {
    var t' := PatchRelease(t, id, tenant, manifest).value;
    ReferencedRecord(t, tenant, manifest, t'.links[id]);
    OneReleaseChanges(t, t', id, t'.releases[id], t'.links[id]);
  }

  lemma DeleteKeepsOk(t: Tables, id: string, tenant: string)
    requires TablesOk(t) && DeleteRelease(t, id, tenant).Some?
    ensures TablesOk(DeleteRelease(t, id, tenant).value)
  {
    var t' := DeleteRelease(t, id, tenant).value;
    forall other <- t'.releases ensures ReleaseOk(t', other) { OtherReleaseStaysOk(t, t', other); }
  }

  lemma RebuiltRecord(artifacts: map<string, Artifact>, tenant: string, links: seq<Link>)
    requires LinksOk(artifacts, tenant, links)
    ensures var listing := EntryDigests(EntriesOf(artifacts, tenant, OrderByPosition(links)));
            listing == AttachedIn(links) && ListingOk(listing, AttachedIn(links))
  {
    IncreasingIsOrdered(links);
    RebuiltDigests(artifacts, tenant, links);
    SyncIsOk(LinkDigests(links), LinkDigests(links));
  }

  lemma RebuildSyncs(t: Tables, id: string, links: seq<Link>)
    requires TablesOk(t) && id in t.releases && LinksOk(t.artifacts, t.releases[id].tenant, links)
    ensures var t' := Rebuild(t.(links := t.links[id := links]), id, t.releases[id].tenant);
            TablesOk(t') && id in t'.releases && InSync(t', id)
  {
    var tenant := t.releases[id].tenant;
    var t' := Rebuild(t.(links := t.links[id := links]), id, tenant);
    RebuiltRecord(t.artifacts, tenant, links);
    OneReleaseChanges(t, t', id, t'.releases[id], links);
  }

  lemma AttachKeepsOk(t: Tables, id: string, artifact: string, tenant: string)
    requires TablesOk(t) && AttachToRelease(t, id, artifact, tenant).Some?
    ensures var t' := AttachToRelease(t, id, artifact, tenant).value;
            TablesOk(t') && id in t'.releases && InSync(t', id)
  {
    assert ReleaseOk(t, id);
    LinkRuntimeKeepsOk(t.artifacts, tenant, t.LinksOf(id), artifact);
    RebuildSyncs(t, id, LinkRuntime(t.LinksOf(id), artifact, t.artifacts[artifact].digest));
  }

  lemma DetachKeepsOk(t: Tables, id: string, artifact: string, tenant: string)
    requires TablesOk(t) && DetachFromRelease(t, id, artifact, tenant).Some?
    ensures var t' := DetachFromRelease(t, id, artifact, tenant).value;
            TablesOk(t') && id in t'.releases && InSync(t', id)
  {
    assert ReleaseOk(t, id);
    WithoutKeepsOk(t.artifacts, tenant, t.LinksOf(id), artifact);
    RebuildSyncs(t, id, WithoutArtifact(t.LinksOf(id), artifact));
  }

  // ---- uploads --------------------------------------------------------------------------------

  lemma StoreKeepsIndex(t: Tables, id: string, artifact: Artifact)
    requires IndexOk(t) && StoreArtifact(t, id, artifact).Some?
    ensures var (t', aid) := StoreArtifact(t, id, artifact).value;
            IndexOk(t') && ArtifactsKept(t.artifacts, t'.artifacts) && IsArtifactOf(t', aid, artifact.tenant)
  {}

  lemma StoreArtifactKeepsOk(t: Tables, id: string, artifact: Artifact)
    requires TablesOk(t) && StoreArtifact(t, id, artifact).Some?
    ensures var (t', aid) := StoreArtifact(t, id, artifact).value;
      && TablesOk(t') && t'.releases == t.releases && t'.links == t.links
      && ArtifactsKept(t.artifacts, t'.artifacts) && IsArtifactOf(t', aid, artifact.tenant)
  {
    StoreKeepsIndex(t, id, artifact);
    NoReleaseChanges(t, StoreArtifact(t, id, artifact).value.0);
  }

  /** The release links the artifact, but under other purposes than runtime only. */
  predicate LinkedOnlyElsewhere(t: Tables, id: string, artifact: string) {
    && !HasLink(t.LinksOf(id), artifact, RUNTIME)
    && exists k :: 0 <= k < |t.LinksOf(id)| && t.LinksOf(id)[k].artifact == artifact
  }

  lemma LinkedMeansDigestAttached(t: Tables, tenant: string, links: seq<Link>, artifact: string)
    requires IndexOk(t) && LinksOk(t.artifacts, tenant, links) && IsArtifactOf(t, artifact, tenant)
    ensures (exists k :: 0 <= k < |links| && links[k].artifact == artifact)
            <==> t.artifacts[artifact].digest in LinkDigests(links)
  {
    var digest := t.artifacts[artifact].digest;
    if k :| 0 <= k < |links| && links[k].artifact == artifact {
      assert LinkOk(t.artifacts, tenant, links[k]);
      assert LinkDigests(links)[k] == digest;
    }
    if digest in LinkDigests(links) {
      var k :| 0 <= k < |links| && LinkDigests(links)[k] == digest;
      assert LinkOk(t.artifacts, tenant, links[k]);
      assert KeyOf(t.artifacts[links[k].artifact]) == KeyOf(t.artifacts[artifact]);
    }
  }

  lemma RuntimeDigests(links: seq<Link>, artifact: string, digest: string)
    ensures LinkDigests(LinkRuntime(links, artifact, digest))
            == LinkDigests(links) + if HasLink(links, artifact, RUNTIME) then [] else [digest]
  {}

  /** The links after an upload. */
  lemma UploadedLinks(artifacts: map<string, Artifact>, tenant: string, links: seq<Link>, artifact: string)
    requires LinksOk(artifacts, tenant, links) && artifact in artifacts && artifacts[artifact].tenant == tenant
    ensures var digest := artifacts[artifact].digest;
      && LinksOk(artifacts, tenant, LinkRuntime(links, artifact, digest))
      && AttachedIn(links) == LinkDigests(links)
      && AttachedIn(LinkRuntime(links, artifact, digest))
         == LinkDigests(links) + if HasLink(links, artifact, RUNTIME) then [] else [digest]
  {
    var digest := artifacts[artifact].digest;
    LinkRuntimeKeepsOk(artifacts, tenant, links, artifact);
    IncreasingIsOrdered(links);
    IncreasingIsOrdered(LinkRuntime(links, artifact, digest));
    RuntimeDigests(links, artifact, digest);
  }

  /** The manifest after an upload. */
  lemma UploadedManifest(manifest: Manifest, name: string, digest: string)
    requires AppendEntry(manifest, name, digest).Some?
    ensures var listing := EntryDigests(manifest.Entries());
      EntryDigests(AppendEntry(manifest, name, digest).value.Entries())
      == listing + if digest in listing then [] else [digest]
  {
    var entries, entry := manifest.Entries(), Entry(name, digest, RUNTIME);
    assert EntryDigests(entries + [entry]) == EntryDigests(entries) + [digest];
  }

  lemma ListedMeansAttached(listing: seq<string>, attached: seq<string>, digest: string)
    requires ListingOk(listing, attached)
    ensures digest in listing <==> digest in attached
  {
    if digest in listing { SubsequenceMembers(listing, attached, digest); }
  }

  /** How one upload changes the two copies: each gains the digest at its end, or neither does,
      except that an artifact linked only under other purposes gains a link alone. */
  lemma UploadedLists(t: Tables, id: string, artifact: string)
    requires IndexOk(t) && id in t.releases && ReleaseOk(t, id) && IsArtifactOf(t, artifact, t.releases[id].tenant)
    requires AddUploaded(t, id, artifact).Some?
    ensures var t', digest := AddUploaded(t, id, artifact).value, t.artifacts[artifact].digest;
      && id in t'.releases
      && LinksOk(t.artifacts, t.releases[id].tenant, t'.LinksOf(id))
      && Listing(t', id) == Listing(t, id) + (if digest in Listing(t, id) then [] else [digest])
      && Attached(t', id) == Attached(t, id) + (if HasLink(t.LinksOf(id), artifact, RUNTIME) then [] else [digest])
    ensures HasLink(t.LinksOf(id), artifact, RUNTIME) ==> t.artifacts[artifact].digest in Listing(t, id)
    ensures LinkedOnlyElsewhere(t, id, artifact) <==>
              t.artifacts[artifact].digest in Listing(t, id) && !HasLink(t.LinksOf(id), artifact, RUNTIME)
  {
    var digest, links := t.artifacts[artifact].digest, t.LinksOf(id);
    UploadedLinks(t.artifacts, t.releases[id].tenant, links, artifact);
    UploadedManifest(t.releases[id].manifest, t.artifacts[artifact].name, digest);
    LinkedMeansDigestAttached(t, t.releases[id].tenant, links, artifact);
    ListedMeansAttached(Listing(t, id), Attached(t, id), digest);
  }

  lemma ListsGrowOk(listing: seq<string>, attached: seq<string>, digest: string, listed: bool, linked: bool)
    requires ListingOk(listing, attached) && (listed <==> digest in listing) && (linked ==> listed)
    ensures ListingOk(listing + (if listed then [] else [digest]), attached + (if linked then [] else [digest]))
  {
    SubsequenceGrows(listing, attached, digest);
    assert listing + [] == listing && attached + [] == attached;
  }

  lemma UploadKeepsOk(t: Tables, id: string, artifact: string)
    requires TablesOk(t) && id in t.releases && IsArtifactOf(t, artifact, t.releases[id].tenant)
    requires AddUploaded(t, id, artifact).Some?
    ensures TablesOk(AddUploaded(t, id, artifact).value)
  {
    var t', digest := AddUploaded(t, id, artifact).value, t.artifacts[artifact].digest;
    UploadedLists(t, id, artifact);
    ListsGrowOk(Listing(t, id), Attached(t, id), digest, digest in Listing(t, id),
                HasLink(t.LinksOf(id), artifact, RUNTIME));
    OneReleaseChanges(t, t', id, t'.releases[id], t'.links[id]);
  }

  /** An upload keeps the two copies equal exactly when the artifact is not already linked to the
      release under other purposes only. */
  lemma UploadKeepsSyncExactlyWhen(t: Tables, id: string, artifact: string)
    requires TablesOk(t) && id in t.releases && InSync(t, id) && IsArtifactOf(t, artifact, t.releases[id].tenant)
    requires AddUploaded(t, id, artifact).Some?
    ensures InSync(AddUploaded(t, id, artifact).value, id) <==> !LinkedOnlyElsewhere(t, id, artifact)
  {
    UploadedLists(t, id, artifact);
    var t' := AddUploaded(t, id, artifact).value;
    if LinkedOnlyElsewhere(t, id, artifact) { assert |Attached(t', id)| == |Listing(t', id)| + 1; }
  }

  /** A confirmation either finds its session completed, or stores the artifact and then adds it to
      the session's release, if it has one. */
  lemma ConfirmShape(t: Tables, sid: string, tenant: string, id: string, artifact: Artifact, now: int)
    returns (t1: Tables, aid: string, t2: Tables)
    requires TablesOk(t) && ConfirmUpload(t, sid, tenant, id, artifact, now).Some?
    ensures sid in t.sessions
    ensures var t', release := ConfirmUpload(t, sid, tenant, id, artifact, now).value, t.sessions[sid].release;
      t' == t || (
        && TablesOk(t1) && t1.releases == t.releases && t1.links == t.links
        && t' == t2.(sessions := t'.sessions)
        && if release.None? then t2 == t1
           else release.value in t1.releases && IsArtifactOf(t1, aid, t1.releases[release.value].tenant)
                && AddUploaded(t1, release.value, aid) == Some(t2))
  {
    var stored := StoreArtifact(t, id, artifact.(tenant := tenant));
    t1, aid, t2 := t, "", t;
    if ConfirmUpload(t, sid, tenant, id, artifact, now).value != t {
      StoreArtifactKeepsOk(t, id, artifact.(tenant := tenant));
      t1, aid := stored.value.0, stored.value.1;
      t2 := if t.sessions[sid].release.None? then t1 else AddUploaded(t1, t.sessions[sid].release.value, aid).value;
    }
  }

  lemma ConfirmKeepsOk(t: Tables, sid: string, tenant: string, id: string, artifact: Artifact, now: int)
    requires TablesOk(t) && ConfirmUpload(t, sid, tenant, id, artifact, now).Some?
    ensures TablesOk(ConfirmUpload(t, sid, tenant, id, artifact, now).value)
  {
    var t1, aid, t2 := ConfirmShape(t, sid, tenant, id, artifact, now);
    var t' := ConfirmUpload(t, sid, tenant, id, artifact, now).value;
    if t' != t {
      if t.sessions[sid].release.Some? { UploadKeepsOk(t1, t.sessions[sid].release.value, aid); }
      NoReleaseChanges(t2, t');
    }
  }

  lemma PublishChanges(t: Tables, id: string, tenant: string)
    requires Publish(t, id, tenant).Some?
    ensures IsDraftOf(t, id, tenant) && id in t.links
    ensures Publish(t, id, tenant).value
            == t.(releases := t.releases[id := t.releases[id].(status := Published)],
                  links := t.links[id := t.LinksOf(id)])
  {
    assert t.links[id := t.LinksOf(id)] == t.links;
  }

  lemma PublishKeepsOk(t: Tables, id: string, tenant: string)
    requires TablesOk(t) && Publish(t, id, tenant).Some?
    ensures TablesOk(Publish(t, id, tenant).value)
  {
    PublishChanges(t, id, tenant);
    assert ReleaseOk(t, id);
    OneReleaseChanges(t, Publish(t, id, tenant).value, id, t.releases[id].(status := Published), t.LinksOf(id));
  }

  // ---- runs -----------------------------------------------------------------------------------

  /** Everything that happens to the tables, including what other parts of the system do to
      artifacts and sessions. */
  datatype Step =
    | Creates(id: string, tenant: string, manifest: Manifest)
    | Patches(id: string, tenant: string, manifest: Manifest)
    | Deletes(id: string, tenant: string)
    | Attaches(id: string, artifact: string, tenant: string)
    | Detaches(id: string, artifact: string, tenant: string)
    | Confirms(sid: string, tenant: string, newId: string, upload: Artifact, now: int)
    | Publishes(id: string, tenant: string)
    | AddsArtifact(newId: string, added: Artifact)
    | MarksArtifact(artifact: string, verification: Verification, lifecycle: Lifecycle)
    | SetsSession(sid: string, session: Session)

  function Attempt(t: Tables, step: Step): Option<Tables> {
    match step
    case Creates(id, tenant, manifest) => CreateRelease(t, id, tenant, manifest)
    case Patches(id, tenant, manifest) => PatchRelease(t, id, tenant, manifest)
    case Deletes(id, tenant) => DeleteRelease(t, id, tenant)
    case Attaches(id, artifact, tenant) => AttachToRelease(t, id, artifact, tenant)
    case Detaches(id, artifact, tenant) => DetachFromRelease(t, id, artifact, tenant)
    case Confirms(sid, tenant, newId, upload, now) => ConfirmUpload(t, sid, tenant, newId, upload, now)
    case Publishes(id, tenant) => Publish(t, id, tenant)
    case AddsArtifact(newId, added) =>
      var stored := StoreArtifact(t, newId, added);
      if stored.None? then None else Some(stored.value.0)
    case MarksArtifact(artifact, verification, lifecycle) =>
      if artifact !in t.artifacts then None
      else
        var marked := t.artifacts[artifact].(verification := verification, lifecycle := lifecycle);
        Some(t.(artifacts := t.artifacts[artifact := marked]))
    case SetsSession(sid, session) => Some(t.(sessions := t.sessions[sid := session]))
  }

  /** A failed transaction is rolled back. */
  function Apply(t: Tables, step: Step): Tables {
    if Attempt(t, step).Some? then Attempt(t, step).value else t
  }

  function After(t: Tables, steps: seq<Step>): Tables {
    if steps == [] then t else Apply(After(t, steps[..|steps| - 1]), steps[|steps| - 1])
  }

  lemma StepKeepsOk(t: Tables, step: Step)
    requires TablesOk(t)
    ensures TablesOk(Apply(t, step))
  {
    if Attempt(t, step).Some? {
      match step
      case Creates(id, tenant, manifest) => CreateKeepsOk(t, id, tenant, manifest);
      case Patches(id, tenant, manifest) => PatchKeepsOk(t, id, tenant, manifest);
      case Deletes(id, tenant) => DeleteKeepsOk(t, id, tenant);
      case Attaches(id, artifact, tenant) => AttachKeepsOk(t, id, artifact, tenant);
      case Detaches(id, artifact, tenant) => DetachKeepsOk(t, id, artifact, tenant);
      case Confirms(sid, tenant, newId, upload, now) => ConfirmKeepsOk(t, sid, tenant, newId, upload, now);
      case Publishes(id, tenant) => PublishKeepsOk(t, id, tenant);
      case AddsArtifact(newId, added) => StoreArtifactKeepsOk(t, newId, added);
      case MarksArtifact(artifact, verification, lifecycle) => NoReleaseChanges(t, Apply(t, step));
      case SetsSession(sid, session) => NoReleaseChanges(t, Apply(t, step));
    }
  }

  /** For every run and all purposes: positions strictly increase, every link names an artifact of
      the release's tenant by its digest, the manifest lists the attached digests in position order
      with at most repetitions left out, and the stored digest is the hash of the stored manifest. */
  lemma {:induction false} RunKeepsOk(steps: seq<Step>)
    ensures TablesOk(After(EMPTY, steps))
  {
    if steps != [] {
      RunKeepsOk(steps[..|steps| - 1]);
      StepKeepsOk(After(EMPTY, steps[..|steps| - 1]), steps[|steps| - 1]);
    }
  }

  /** The release a step works on, if any. */
  function Touched(t: Tables, step: Step): Option<string> {
    match step
    case Creates(id, _, _) => Some(id)
    case Patches(id, _, _) => Some(id)
    case Deletes(id, _) => Some(id)
    case Attaches(id, _, _) => Some(id)
    case Detaches(id, _, _) => Some(id)
    case Confirms(sid, _, _, _, _) => if sid in t.sessions then t.sessions[sid].release else None
    case Publishes(id, _) => Some(id)
    case _ => None
  }

  lemma UntouchedIsSame(t: Tables, step: Step, id: string)
    requires Touched(t, step) != Some(id)
    ensures SameRelease(t, Apply(t, step), id)
  {}

  // ---- publishing -----------------------------------------------------------------------------

  /** In every run and for all purposes, a release that is published lists exactly the attached
      artifacts, in position order; there is at least one, and each is verified and active. */
  lemma PublishedListsAttached(steps: seq<Step>, id: string, tenant: string)
    requires Publish(After(EMPTY, steps), id, tenant).Some?
    ensures var t := After(EMPTY, steps);
      && id in t.releases && InSync(t, id) && t.LinksOf(id) != []
      && forall k :: 0 <= k < |t.LinksOf(id)| ==>
           t.LinksOf(id)[k].artifact in t.artifacts && t.artifacts[t.LinksOf(id)[k].artifact].Usable()
  {
    var t := After(EMPTY, steps);
    RunKeepsOk(steps);
    PublishChanges(t, id, tenant);
    assert ReleaseOk(t, id);
    SubsequenceOfSameLength(Listing(t, id), Attached(t, id));
    IncreasingIsOrdered(t.LinksOf(id));
    forall k | 0 <= k < |t.LinksOf(id)| ensures t.LinksOf(id)[k].artifact in t.artifacts {
      assert LinkOk(t.artifacts, t.releases[id].tenant, t.LinksOf(id)[k]);
    }
  }

  predicate IsPublished(t: Tables, id: string) { id in t.releases && t.releases[id].status == Published }

  /** Every transaction on a release that is not a draft is refused or finds nothing to do. */
  lemma PublishedRefuses(t: Tables, step: Step, id: string)
    requires IsPublished(t, id) && Touched(t, step) == Some(id)
    ensures Apply(t, step) == t
  {}

  lemma StepLeavesPublished(t: Tables, step: Step, id: string)
    requires IsPublished(t, id)
    ensures SameRelease(t, Apply(t, step), id)
  {
    if Touched(t, step) == Some(id) { PublishedRefuses(t, step, id); } else { UntouchedIsSame(t, step, id); }
  }

  /** No later step changes a published release's manifest, digest, status or attached list. */
  lemma {:induction false} PublishedIsImmutable(t: Tables, steps: seq<Step>, id: string)
    requires IsPublished(t, id)
    ensures SameRelease(t, After(t, steps), id)
  {
    if steps != [] {
      PublishedIsImmutable(t, steps[..|steps| - 1], id);
      StepLeavesPublished(After(t, steps[..|steps| - 1]), steps[|steps| - 1], id);
    }
  }

  // ---- when the two copies part ---------------------------------------------------------------

  /** A confirmation that takes effect for an artifact the session's release already links, but under
      other purposes only. */
  predicate Parts(t: Tables, step: Step) {
    && step.Confirms? && Attempt(t, step).Some? && step.sid in t.sessions
    && t.sessions[step.sid].status != SessionCompleted && t.sessions[step.sid].release.Some?
    && var key := DigestKey(step.tenant, step.upload.digest);
       key in t.byDigest && LinkedOnlyElsewhere(t, t.sessions[step.sid].release.value, t.byDigest[key])
  }

  /** A confirmed upload keeps the two copies equal exactly when the tenant has no artifact of that
      digest which the release links under other purposes only. */
  lemma ConfirmKeepsSyncExactlyWhen(t: Tables, step: Step, id: string)
    requires TablesOk(t) && step.Confirms? && Attempt(t, step).Some? && Touched(t, step) == Some(id)
    requires id in t.releases && InSync(t, id)
    ensures id in Apply(t, step).releases && (InSync(Apply(t, step), id) <==> !Parts(t, step))
  {
    if t.sessions[step.sid].status != SessionCompleted {
      var t1, aid := ConfirmedArtifact(t, step, id);
      var t2 := AddUploaded(t1, id, aid).value;
      UploadKeepsSyncExactlyWhen(t1, id, aid);
      SameLinks(t2, Apply(t, step), id, aid);
      SameLinks(t, t1, id, aid);
      if DigestKey(step.tenant, step.upload.digest) !in t.byDigest { NewIsUnlinked(t, id, aid); }
    }
  }

  /** A confirmation that takes effect stores the upload, or finds the tenant's artifact with its
      digest, and adds it to the release. */
  lemma ConfirmedArtifact(t: Tables, step: Step, id: string) returns (t1: Tables, aid: string)
    requires TablesOk(t) && step.Confirms? && Attempt(t, step).Some? && Touched(t, step) == Some(id)
    requires id in t.releases && t.sessions[step.sid].status != SessionCompleted
    ensures TablesOk(t1) && t1.releases == t.releases && t1.links == t.links
    ensures IsArtifactOf(t1, aid, t1.releases[id].tenant) && AddUploaded(t1, id, aid).Some?
    ensures Apply(t, step).releases == AddUploaded(t1, id, aid).value.releases
    ensures Apply(t, step).links == AddUploaded(t1, id, aid).value.links
    ensures var key := DigestKey(step.tenant, step.upload.digest);
            if key in t.byDigest then aid == t.byDigest[key] else aid !in t.artifacts
  {
    var artifact := step.upload.(tenant := step.tenant);
    var stored := StoreArtifact(t, step.newId, artifact).value;
    StoreArtifactKeepsOk(t, step.newId, artifact);
    t1, aid := stored.0, stored.1;
  }

  lemma SameLinks(t: Tables, t': Tables, id: string, artifact: string)
    requires t'.releases == t.releases && t'.links == t.links && id in t.releases
    ensures LinkedOnlyElsewhere(t', id, artifact) <==> LinkedOnlyElsewhere(t, id, artifact)
    ensures InSync(t', id) <==> InSync(t, id)
  {}

  lemma NewIsUnlinked(t: Tables, id: string, artifact: string)
    requires TablesOk(t) && id in t.releases && artifact !in t.artifacts
    ensures !LinkedOnlyElsewhere(t, id, artifact)
  {
    assert ReleaseOk(t, id);
    forall k | 0 <= k < |t.LinksOf(id)| ensures t.LinksOf(id)[k].artifact != artifact {
      assert LinkOk(t.artifacts, t.releases[id].tenant, t.LinksOf(id)[k]);
    }
  }

  /** Every other transaction leaves the release it works on with equal copies. */
  lemma TouchedIsInSync(t: Tables, step: Step, id: string)
    requires TablesOk(t) && Attempt(t, step).Some? && Touched(t, step) == Some(id) && !step.Confirms?
    requires id in Apply(t, step).releases && (id in t.releases ==> InSync(t, id))
    ensures InSync(Apply(t, step), id)
  {
    match step
    case Creates(_, tenant, manifest) => CreateKeepsOk(t, id, tenant, manifest);
    case Patches(_, tenant, manifest) => PatchKeepsOk(t, id, tenant, manifest);
    case Attaches(_, artifact, tenant) => AttachKeepsOk(t, id, artifact, tenant);
    case Detaches(_, artifact, tenant) => DetachKeepsOk(t, id, artifact, tenant);
    case Publishes(_, tenant) => PublishChanges(t, id, tenant);
    case _ =>
  }

  predicate AllInSync(t: Tables) { forall id <- t.releases :: InSync(t, id) }

  lemma StepKeepsReleaseInSync(t: Tables, step: Step, id: string)
    requires TablesOk(t) && AllInSync(t) && !Parts(t, step) && id in Apply(t, step).releases
    ensures InSync(Apply(t, step), id)
  {
    if Attempt(t, step).None? {
    } else if Touched(t, step) != Some(id) {
      UntouchedIsSame(t, step, id);
    } else if step.Confirms? && id in t.releases {
      ConfirmKeepsSyncExactlyWhen(t, step, id);
    } else if !step.Confirms? {
      TouchedIsInSync(t, step, id);
    }
  }

  /** A step takes the two copies of some release apart exactly when it is such a confirmation. */
  lemma StepKeepsSyncExactlyWhen(t: Tables, step: Step)
    requires TablesOk(t) && AllInSync(t)
    ensures AllInSync(Apply(t, step)) <==> !Parts(t, step)
  {
    if Parts(t, step) {
      ConfirmKeepsSyncExactlyWhen(t, step, t.sessions[step.sid].release.value);
    } else {
      forall id <- Apply(t, step).releases ensures InSync(Apply(t, step), id) { StepKeepsReleaseInSync(t, step, id); }
    }
  }

  predicate NeverParts(steps: seq<Step>) {
    steps != [] ==> NeverParts(steps[..|steps| - 1]) && !Parts(After(EMPTY, steps[..|steps| - 1]), steps[|steps| - 1])
  }

  predicate InSyncThroughout(steps: seq<Step>) {
    AllInSync(After(EMPTY, steps)) && (steps != [] ==> InSyncThroughout(steps[..|steps| - 1]))
  }

  /** For every run and all purposes: each release's manifest list equals its link rows in position
      order at every point of the run exactly when no step is such a confirmation. */
  lemma {:induction false} RunsStayInSyncExactlyWhen(steps: seq<Step>)
    ensures InSyncThroughout(steps) <==> NeverParts(steps)
  {
    if steps != [] {
      var front := steps[..|steps| - 1];
      RunsStayInSyncExactlyWhen(front);
      RunKeepsOk(front);
      if NeverParts(front) { StepKeepsSyncExactlyWhen(After(EMPTY, front), steps[|steps| - 1]); }
    }
  }

  // ---- runtime-only runs ----------------------------------------------------------------------

  /** Every entry a client puts in a manifest has purpose runtime or none. */
  predicate RuntimeManifest(manifest: Manifest) {
    forall k :: 0 <= k < |manifest.Entries()| ==> manifest.Entries()[k].purpose in {"", RUNTIME}
  }

  predicate RuntimeStep(step: Step) {
    (step.Creates? || step.Patches?) ==> RuntimeManifest(step.manifest)
  }

  predicate RuntimeLinks(links: seq<Link>) {
    forall k :: 0 <= k < |links| ==> links[k].purpose == RUNTIME
  }

  predicate AllRuntime(t: Tables) { forall id <- t.releases :: RuntimeLinks(t.LinksOf(id)) }

  lemma {:induction false} WithoutIsRuntime(links: seq<Link>, artifact: string)
    requires RuntimeLinks(links)
    ensures RuntimeLinks(WithoutArtifact(links, artifact))
  {
    if links != [] { WithoutIsRuntime(links[..|links| - 1], artifact); }
  }

  lemma RuntimeRefs(t: Tables, tenant: string, manifest: Manifest, links: seq<Link>)
    requires IndexOk(t) && References(manifest).Some? && RuntimeManifest(manifest)
    requires LinksFor(t, tenant, References(manifest).value, |References(manifest).value|) == Some(links)
    ensures RuntimeLinks(links)
  {
    LinksForRefs(t, tenant, References(manifest).value, |References(manifest).value|);
  }

  lemma RuntimeLinkIsRuntime(links: seq<Link>, artifact: string, digest: string)
    requires RuntimeLinks(links)
    ensures RuntimeLinks(LinkRuntime(links, artifact, digest))
  {}

  lemma ConfirmStaysRuntime(t: Tables, step: Step, id: string)
    requires TablesOk(t) && step.Confirms? && Attempt(t, step).Some? && Touched(t, step) == Some(id)
    requires RuntimeLinks(t.LinksOf(id))
    ensures RuntimeLinks(Apply(t, step).LinksOf(id))
  {
    var t1, aid, t2 := ConfirmShape(t, step.sid, step.tenant, step.newId, step.upload, step.now);
    if Apply(t, step) != t { RuntimeLinkIsRuntime(t.LinksOf(id), aid, t1.artifacts[aid].digest); }
  }

  lemma TouchedStaysRuntime(t: Tables, step: Step, id: string)
    requires TablesOk(t) && AllRuntime(t) && RuntimeStep(step) && Touched(t, step) == Some(id)
    requires Attempt(t, step).Some? && id in Apply(t, step).releases
    ensures RuntimeLinks(Apply(t, step).LinksOf(id))
  {
    match step
    case Creates(_, tenant, manifest) => RuntimeRefs(t, tenant, manifest, Apply(t, step).LinksOf(id));
    case Patches(_, tenant, manifest) => RuntimeRefs(t, tenant, manifest, Apply(t, step).LinksOf(id));
    case Attaches(_, artifact, _) => RuntimeLinkIsRuntime(t.LinksOf(id), artifact, t.artifacts[artifact].digest);
    case Detaches(_, artifact, _) => WithoutIsRuntime(t.LinksOf(id), artifact);
    case Confirms(_, _, _, _, _) => ConfirmStaysRuntime(t, step, id);
    case Publishes(_, tenant) => PublishChanges(t, id, tenant);
    case _ =>
  }

  lemma {:induction false} RuntimeRunsNeverPart(steps: seq<Step>)
    requires forall k :: 0 <= k < |steps| ==> RuntimeStep(steps[k])
    ensures AllRuntime(After(EMPTY, steps)) && NeverParts(steps)
  {
    if steps != [] {
      var front, step := steps[..|steps| - 1], steps[|steps| - 1];
      RuntimeRunsNeverPart(front);
      RunKeepsOk(front);
      var t := After(EMPTY, front);
      assert RuntimeStep(steps[|steps| - 1]);
      forall id <- Apply(t, step).releases ensures RuntimeLinks(Apply(t, step).LinksOf(id)) {
        if Touched(t, step) != Some(id) { UntouchedIsSame(t, step, id); }
        else if Attempt(t, step).Some? { TouchedStaysRuntime(t, step, id); }
      }
    }
  }

  /** When all manifest entries have purpose runtime or none, every sequence of transactions keeps
      each release's manifest list equal to its link rows in position order. */
  lemma RuntimeRunsStayInSync(steps: seq<Step>)
    requires forall k :: 0 <= k < |steps| ==> RuntimeStep(steps[k])
    ensures AllInSync(After(EMPTY, steps))
  {
    RuntimeRunsNeverPart(steps);
    RunsStayInSyncExactlyWhen(steps);
  }

  // ---- a run that diverges --------------------------------------------------------------------

  function SampleArtifact(digest: string): Artifact { Artifact("t", "n", digest, Verified, ActiveArtifact) }

  function SampleManifest(digest: string): Manifest { Manifest(Listed([Entry("n", digest, "docs")]), "") }

  /** A draft that attaches the artifact as documentation, and a session that uploads it again. */
  function SampleTables(digest: string): Tables {
    Tables(map["a" := SampleArtifact(digest)], map[DigestKey("t", digest) := "a"],
           map["r" := Release("t", Draft, SampleManifest(digest), HashOf(SampleManifest(digest)))],
           map["r" := [Link("a", "docs", 0, digest)]],
           map["s" := Session("t", SessionPending, None, Some("r"), 1)])
  }

  lemma SampleLinks(t: Tables, digest: string)
    requires t.artifacts == SampleTables(digest).artifacts && t.byDigest == SampleTables(digest).byDigest
    ensures LinksFor(t, "t", [Entry("n", digest, "docs")], 1) == Some([Link("a", "docs", 0, digest)])
  {
    var link := Link("a", "docs", 0, digest);
    assert |"docs"| == 4 && LinkFor(t, "t", Entry("n", digest, "docs"), 0) == Some(link);
    assert LinksFor(t, "t", [Entry("n", digest, "docs")], 0) == Some([]) && [] + [link] == [link];
  }

  lemma SampleCreate(t: Tables, digest: string)
    requires IsDigest(digest) && t == SampleTables(digest).(releases := map[], links := map[], sessions := map[])
    ensures Apply(t, Creates("r", "t", SampleManifest(digest))) == SampleTables(digest).(sessions := map[])
  {
    SampleLinks(t, digest);
    assert References(SampleManifest(digest)) == Some([Entry("n", digest, "docs")]);
  }

  lemma AfterMore(t: Tables, steps: seq<Step>, step: Step)
    ensures After(t, steps + [step]) == Apply(After(t, steps), step)
  {
    assert (steps + [step])[..|steps|] == steps;
  }

  lemma SampleIsReachable(digest: string) returns (steps: seq<Step>)
    requires IsDigest(digest)
    ensures After(EMPTY, steps) == SampleTables(digest)
  {
    var adds := AddsArtifact("a", SampleArtifact(digest));
    var creates := Creates("r", "t", SampleManifest(digest));
    var sets := SetsSession("s", Session("t", SessionPending, None, Some("r"), 1));
    AfterMore(EMPTY, [], adds);
    AfterMore(EMPTY, [] + [adds], creates);
    AfterMore(EMPTY, [] + [adds] + [creates], sets);
    SampleCreate(After(EMPTY, [] + [adds]), digest);
    steps := [] + [adds] + [creates] + [sets];
  }

  lemma SampleIsInSync(digest: string)
    ensures InSync(SampleTables(digest), "r")
  {
    var links := [Link("a", "docs", 0, digest)];
    IncreasingIsOrdered(links);
    assert EntryDigests([Entry("n", digest, "docs")]) == [digest] == LinkDigests(links);
  }

  lemma SampleLinkedElsewhere(digest: string)
    ensures LinkedOnlyElsewhere(SampleTables(digest), "r", "a")
  {
    var links := SampleTables(digest).LinksOf("r");
    assert links == [Link("a", "docs", 0, digest)];
    assert links[0].artifact == "a" && |links[0].purpose| == 4 && |RUNTIME| == 7;
  }

  lemma SampleConfirm(digest: string)
    ensures var t, confirms := SampleTables(digest), Confirms("s", "t", "b", SampleArtifact(digest), 0);
      && AddUploaded(t, "r", "a").Some?
      && Apply(t, confirms).releases == AddUploaded(t, "r", "a").value.releases
      && Apply(t, confirms).links == AddUploaded(t, "r", "a").value.links
  {
    var t := SampleTables(digest);
    assert StoreArtifact(t, "b", SampleArtifact(digest).(tenant := "t")) == Some((t, "a"));
  }

  lemma SampleDiverges(digest: string)
    requires TablesOk(SampleTables(digest))
    ensures var t := Apply(SampleTables(digest), Confirms("s", "t", "b", SampleArtifact(digest), 0));
            "r" in t.releases && !InSync(t, "r")
  {
    SampleIsInSync(digest);
    SampleLinkedElsewhere(digest);
    SampleConfirm(digest);
    UploadKeepsSyncExactlyWhen(SampleTables(digest), "r", "a");
  }

  /** With other purposes the two copies can part: an artifact attached as documentation and then
      uploaded again gets a second link but no second manifest entry. */
  lemma DivergenceIsReachable(digest: string) returns (steps: seq<Step>)
    requires IsDigest(digest)
    ensures "r" in After(EMPTY, steps).releases && !InSync(After(EMPTY, steps), "r")
  {
    var sample := SampleIsReachable(digest);
    RunKeepsOk(sample);
    SampleDiverges(digest);
    AfterMore(EMPTY, sample, Confirms("s", "t", "b", SampleArtifact(digest), 0));
    steps := sample + [Confirms("s", "t", "b", SampleArtifact(digest), 0)];
  }
}
