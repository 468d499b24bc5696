/**
 * `cachedManifests` in cmd/coordinator/comparecache.go: manifest reads by
 * digest served from the store, over the live repository it wraps
 * (internal/registry/generic/manifests.go).
 *
 * `hash` stands for SHA-256 written as a digest. It is arbitrary here: what is
 * proved holds up to a collision, and names it.
 */
module ManifestCache {
  import opened Text

  datatype Descriptor = Descriptor(mediaType: string, digest: string, size: int)

  datatype Fetch = Fetched(descriptor: Descriptor, raw: string) | FetchError

  /** A stored body; the size column may be zero when it was never recorded. */
  datatype Body = Body(raw: string, mediaType: string, sizeBytes: int)

  type Store = map<string, Body>

  /** What the registry sends for one reference, whatever the reason. */
  datatype Answer = Sent(raw: string, claimedDigest: string, contentType: string) | NoAnswer

  const MAX_MANIFEST_BYTES: nat := 0x80_0000

  const OCI_MANIFEST := "application/vnd.oci.image.manifest.v1+json"

  // ---- references ---------------------------------------------------------

  predicate IsDigest(ref: string) {
    var i := IndexOf(ref, ':');
    i > 0 && i < |ref| - 1
  }

  predicate LowerOrDigit(c: char) {
    'a' <= c <= 'z' || '0' <= c <= '9'
  }

  predicate Alphanumeric(c: char) {
    LowerOrDigit(c) || 'A' <= c <= 'Z'
  }

  /** A tag, section "Pulling manifests" of the OCI Distribution Specification. */
  predicate IsTag(s: string) {
    && 1 <= |s| <= 128
    && (Alphanumeric(s[0]) || s[0] == '_')
    && forall i :: 0 < i < |s| ==> Alphanumeric(s[i]) || s[i] == '_' || s[i] == '.' || s[i] == '-'
  }

  /** One or more components of letters and digits, one separator between neighbours. */
  predicate IsAlgorithm(s: string) {
    && s != []
    && LowerOrDigit(s[0]) && LowerOrDigit(s[|s| - 1])
    && (forall i :: 0 <= i < |s| ==> LowerOrDigit(s[i]) || s[i] in "+._-")
    && forall i :: 0 < i < |s| ==> LowerOrDigit(s[i - 1]) || LowerOrDigit(s[i])
  }

  predicate IsEncoded(s: string) {
    s != [] && forall i :: 0 <= i < |s| ==> Alphanumeric(s[i]) || s[i] in "=_-"
  }

  /** A digest, section "Digests" of the OCI Image Specification's descriptor document. */
  ghost predicate IsOciDigest(s: string) {
    exists algorithm, encoded :: IsAlgorithm(algorithm) && IsEncoded(encoded) && s == algorithm + ":" + encoded
  }

  lemma SplitAtColon(a: string, e: string)
    requires ':' !in a
    ensures IndexOf(a + ":" + e, ':') == |a|
  {
    var s := a + ":" + e;
    assert s[|a|] == ':';
    assert forall i :: 0 <= i < |a| ==> s[i] == a[i] && a[i] in a;
    var k := IndexOf(s, ':');
    assert ':' in s;
  }

  /** The test is exact: something, a first colon, something. */
  lemma IsDigestExact(ref: string)
    ensures IsDigest(ref) <==> exists a, e :: a != "" && e != "" && ':' !in a && ref == a + ":" + e
  {
    if IsDigest(ref) {
      var k := IndexOf(ref, ':');
      var a, e := ref[..k], ref[k + 1..];
      assert ref == a + ":" + e;
      assert a != "" && e != "" && ':' !in a;
    }
    if a, e :| a != "" && e != "" && ':' !in a && ref == a + ":" + e {
      SplitAtColon(a, e);
    }
  }

  /** Every OCI digest passes it and no OCI tag does. */
  lemma DigestsAndTags(ref: string)
    ensures IsOciDigest(ref) ==> IsDigest(ref)
    ensures IsTag(ref) ==> !IsDigest(ref)
  {
    if IsOciDigest(ref) {
      var a, e :| IsAlgorithm(a) && IsEncoded(e) && ref == a + ":" + e;
      assert forall i :: 0 <= i < |a| ==> a[i] != ':';
      SplitAtColon(a, e);
    }
    if IsTag(ref) {
      assert forall i :: 0 <= i < |ref| ==> ref[i] != ':';
    }
  }

  // ---- the live repository ------------------------------------------------

  /** Digest.Validate: "sha256:" and 64 lower-case hex digits. */
  predicate ValidSha256(d: string) {
    && |d| == 71
    && d[..7] == "sha256:"
    && forall i :: 7 <= i < 71 ==> '0' <= d[i] <= '9' || 'a' <= d[i] <= 'f'
  }

  /** The bytes are checked against the claimed digest, and against a requested one. */
  function LiveFetch(hash: string -> string, answer: Answer, ref: string): Fetch {
    if ref == "" then FetchError
    else
      match answer
      case NoAnswer => FetchError
      case Sent(raw, claimed, contentType) =>
        var actual := hash(raw);
        if |raw| > MAX_MANIFEST_BYTES then FetchError
        else if claimed != "" && claimed != actual then FetchError
        else if ':' in ref && ValidSha256(ref) && ref != actual then FetchError
        else
          Fetched(Descriptor(if contentType == "" then OCI_MANIFEST else contentType, actual, |raw|), raw)
  }

  // ---- the cache ----------------------------------------------------------

  /** `readable` says whether the database answers. */
  function FetchManifest(
    hash: string -> string, store: Store, readable: bool, answer: Answer, ref: string): Fetch
  {
    if !IsDigest(ref) then LiveFetch(hash, answer, ref)
    else if readable && ref in store then
      var m := store[ref];
      Fetched(Descriptor(m.mediaType, ref, if m.sizeBytes == 0 then |m.raw| else m.sizeBytes), m.raw)
    else LiveFetch(hash, answer, ref)
  }

  /** Bodies are kept under the digest they hash to. */
  ghost predicate Sound(hash: string -> string, store: Store) {
    forall d :: d in store ==> hash(store[d].raw) == d
  }

  /** A recorded size is the size of the body. */
  ghost predicate SizesRight(store: Store) {
    forall d :: d in store ==> store[d].sizeBytes == 0 || store[d].sizeBytes == |store[d].raw|
  }

  ghost predicate Collision(hash: string -> string, a: string, b: string) {
    a != b && hash(a) == hash(b)
  }

  /**
   * Whenever the live read would succeed, so does the cached one, with the same
   * digest, and with the same bytes unless the hash collides on the two.
   */
  lemma Refines(hash: string -> string, store: Store, readable: bool, answer: Answer, ref: string)
    requires Sound(hash, store)
    requires forall b :: ValidSha256(hash(b))
    requires LiveFetch(hash, answer, ref).Fetched?
    ensures var live, cached := LiveFetch(hash, answer, ref), FetchManifest(hash, store, readable, answer, ref);
      && cached.Fetched?
      && cached.descriptor.digest == live.descriptor.digest
      && (cached.raw == live.raw || Collision(hash, cached.raw, live.raw))
      && hash(cached.raw) == cached.descriptor.digest
      && (cached.raw == live.raw && SizesRight(store) ==> cached.descriptor.size == live.descriptor.size)
  {
    if IsDigest(ref) && readable && ref in store {
      assert ValidSha256(hash(store[ref].raw));
    }
  }

  /** A tag is never answered from the store, nor is anything when the database fails. */
  lemma TagsAreLive(hash: string -> string, store: Store, readable: bool, answer: Answer, ref: string)
    requires IsTag(ref) || !readable
    ensures FetchManifest(hash, store, readable, answer, ref) == LiveFetch(hash, answer, ref)
  {
    DigestsAndTags(ref);
  }

  /**
   * A live read succeeds exactly for a body of at most 8 MiB that hashes to
   * the digest claimed for it and to the one asked for; it is described as sent.
   */
  lemma LiveReadIsVerified(hash: string -> string, answer: Answer, ref: string)
    ensures var live := LiveFetch(hash, answer, ref);
      && (live.Fetched? <==>
        && ref != "" && answer.Sent? && |answer.raw| <= 8 * 1024 * 1024
        && (answer.claimedDigest == "" || answer.claimedDigest == hash(answer.raw))
        && (ValidSha256(ref) ==> ref == hash(answer.raw)))
      && (live.Fetched? ==>
        && live.raw == answer.raw
        && live.descriptor.digest == hash(answer.raw) && live.descriptor.size == |answer.raw|
        && live.descriptor.mediaType ==
          if answer.contentType == "" then "application/vnd.oci.image.manifest.v1+json" else answer.contentType)
  {
    if ValidSha256(ref) {
      assert ref[6] == ref[..7][6] == ':';
    }
  }

  /** A body the store holds is served whatever the registry would answer, if it answers at all. */
  lemma StoreServes(hash: string -> string, store: Store, answer: Answer, ref: string)
    requires IsDigest(ref) && ref in store
    ensures var r, m := FetchManifest(hash, store, true, answer, ref), store[ref];
      && r.Fetched? && r.raw == m.raw
      && r.descriptor.mediaType == m.mediaType && r.descriptor.digest == ref
      && r.descriptor.size == (if m.sizeBytes == 0 then |m.raw| else m.sizeBytes)
  {
  }

  // ---- every interleaving -------------------------------------------------

  /** What happens to the store between reads; the registry and its tags may change at any time. */
  datatype Event =
    | Keep(body: Body)
    | Evict(digest: string)
    | Read(ref: string, readable: bool, answer: Answer)

  function After(hash: string -> string, store: Store, e: Event): Store {
    match e
    case Keep(body) => store[hash(body.raw) := body]
    case Evict(digest) => store - {digest}
    case Read(_, _, _) => store
  }

  function StoreAfter(hash: string -> string, events: seq<Event>): Store {
    if events == [] then map[] else After(hash, StoreAfter(hash, events[..|events| - 1]), events[|events| - 1])
  }

  lemma {:induction false} StaysSound(hash: string -> string, events: seq<Event>)
    ensures Sound(hash, StoreAfter(hash, events))
  {
    if events != [] {
      StaysSound(hash, events[..|events| - 1]);
    }
  }

  /** So every read of a run agrees with the live read it replaces. */
  lemma EveryReadRefines(hash: string -> string, events: seq<Event>, i: nat)
    requires i < |events| && events[i].Read?
    requires forall b :: ValidSha256(hash(b))
    requires LiveFetch(hash, events[i].answer, events[i].ref).Fetched?
    ensures var e := events[i];
      var live := LiveFetch(hash, e.answer, e.ref);
      var cached := FetchManifest(hash, StoreAfter(hash, events[..i]), e.readable, e.answer, e.ref);
      && cached.Fetched?
      && cached.descriptor.digest == live.descriptor.digest
      && (cached.raw == live.raw || Collision(hash, cached.raw, live.raw))
  {
    StaysSound(hash, events[..i]);
    Refines(hash, StoreAfter(hash, events[..i]), events[i].readable, events[i].answer, events[i].ref);
  }

  lemma ValidIsDigest(d: string)
    requires ValidSha256(d)
    ensures IsDigest(d)
  {
    assert forall i :: 0 <= i < 7 ==> d[i] == d[..7][i];
    assert d[6] == ':' && ':' in d;
    assert d[0] == 's';
  }

  lemma {:induction false} StaysKept(hash: string -> string, events: seq<Event>, k: nat, i: nat)
    requires k < i <= |events| && events[k].Keep?
    requires var d := hash(events[k].body.raw);
      forall m :: k < m < i ==> events[m] != Evict(d) && (events[m].Keep? ==> hash(events[m].body.raw) != d)
    ensures var d := hash(events[k].body.raw);
      d in StoreAfter(hash, events[..i]) && StoreAfter(hash, events[..i])[d] == events[k].body
    decreases i
  {
    var front := events[..i];
    assert front[..|front| - 1] == events[..i - 1] && front[|front| - 1] == events[i - 1];
    if k < i - 1 {
      StaysKept(hash, events, k, i - 1);
    }
  }

  /** What was evicted and not kept since is read live. */
  lemma {:induction false} EvictedIsLive(hash: string -> string, events: seq<Event>, k: nat, i: nat, answer: Answer)
    requires k < i <= |events| && events[k].Evict?
    requires forall m :: k < m < i && events[m].Keep? ==> hash(events[m].body.raw) != events[k].digest
    ensures events[k].digest !in StoreAfter(hash, events[..i])
    ensures FetchManifest(hash, StoreAfter(hash, events[..i]), true, answer, events[k].digest)
      == LiveFetch(hash, answer, events[k].digest)
    decreases i
  {
    var front := events[..i];
    assert front[..|front| - 1] == events[..i - 1] && front[|front| - 1] == events[i - 1];
    if k < i - 1 {
      EvictedIsLive(hash, events, k, i - 1, answer);
    }
  }

  /** A body that was kept and not evicted or kept anew since is read back, whatever the registry does. */
  lemma KeptIsServed(hash: string -> string, events: seq<Event>, k: nat, i: nat, answer: Answer)
    requires forall b :: ValidSha256(hash(b))
    requires k < i <= |events| && events[k].Keep?
    requires var d := hash(events[k].body.raw);
      forall m :: k < m < i ==> events[m] != Evict(d) && (events[m].Keep? ==> hash(events[m].body.raw) != d)
    ensures var body := events[k].body;
      var r := FetchManifest(hash, StoreAfter(hash, events[..i]), true, answer, hash(body.raw));
      && r.Fetched? && r.raw == body.raw
      && r.descriptor.mediaType == body.mediaType && r.descriptor.digest == hash(body.raw)
      && r.descriptor.size == (if body.sizeBytes == 0 then |body.raw| else body.sizeBytes)
  {
    StaysKept(hash, events, k, i);
    ValidIsDigest(hash(events[k].body.raw));
    StoreServes(hash, StoreAfter(hash, events[..i]), answer, hash(events[k].body.raw));
  }
}
