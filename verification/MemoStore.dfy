/** The digest memo: documents kept in the local store under the digest of a metadata pre-image. */
module MemoStore {
  import opened Orders
  import opened Paths
  import opened Bytes
  import opened InputTree
  import opened Metadata
  import opened Memo

  /** Serialisation sink that stops before an oversized memo can inflate memory. */
  class BoundedMemoBytes {
    var bytes: Text
    var exceeded: bool
    const max: nat

    constructor (max: nat)
      ensures bytes == [] && !exceeded && this.max == max
    {
      bytes, exceeded, this.max := [], false, max;
    }

    method Write(buffer: Text) returns (ok: bool)
      modifies this
      ensures ok == (|old(bytes)| + |buffer| <= max)
      ensures bytes == if ok then old(bytes) + buffer else old(bytes)
      ensures exceeded == (old(exceeded) || !ok)
    {
      if |bytes| + |buffer| > max {
        exceeded := true;
        return false;
      }
      bytes := bytes + buffer;
      return true;
    }
  }

  lemma {:induction false} FlatPrefix(chunks: seq<Text>, n: nat)
    requires n <= |chunks|
    ensures |Flat(chunks[..n])| <= |Flat(chunks)|
  {
    if n > 0 {
      assert chunks[..n][1..] == chunks[1..][..n - 1];
      FlatPrefix(chunks[1..], n - 1);
    }
  }

  lemma FlatNext(chunks: seq<Text>, n: nat)
    requires n < |chunks|
    ensures Flat(chunks[..n + 1]) == Flat(chunks[..n]) + chunks[n]
  {
    assert chunks[..n + 1] == chunks[..n] + [chunks[n]];
    ConcatOne((t: Text) => t, chunks[..n], chunks[n]);
  }

  /** Writing chunk by chunk succeeds exactly when the whole document fits, whatever the chunks are. */
  method Serialize(chunks: seq<Text>, max: nat) returns (r: Option<Text>)
    ensures r.Some? <==> |Flat(chunks)| <= max
    ensures r.Some? ==> r.value == Flat(chunks)
  {
    var sink := new BoundedMemoBytes(max);
    for n := 0 to |chunks|
      invariant sink.bytes == Flat(chunks[..n]) && !sink.exceeded && |sink.bytes| <= max
    {
      FlatNext(chunks, n);
      FlatPrefix(chunks, n + 1);
      var ok := sink.Write(chunks[n]);
      if !ok {
        return None;
      }
    }
    assert chunks[..|chunks|] == chunks;
    return Some(sink.bytes);
  }

  /** One entry of a remembered snapshot against what discovery sees now. */
  predicate EntryMatches(e: InputEntry, expected: ValidationEntry) {
    && e.path == expected.path
    && match (e, expected.kind)
       case (Directory(_), DirectoryKind) => true
       case (File(_, content, executable), FileKind(x)) =>
         content.algorithm == Blake3 && content.size == expected.metadata.length && executable == x
       case (Symlink(_, target), SymlinkKind(t)) => target == t
       case _ => false
  }

  /** `memo_matches`. */
  predicate MemoMatches(host: Host, root: Digest, entries: seq<InputEntry>, v: seq<ValidationEntry>) {
    && |entries| == |v|
    && host.hash(TreeStream(entries)) == root
    && forall i :: 0 <= i < |v| ==> EntryMatches(entries[i], v[i])
  }

  datatype MemoBlob = MemoBlob(digest: Digest, size: nat, entryCount: nat)
  datatype MemoResult = MemoResult(action: Digest, bundle: Option<MemoBlob>, plain: bool)

  /** The record that `put` files for a document. */
  function RecordFor(host: Host, m: Digest, d: Document): MemoResult {
    MemoResult(m, Some(MemoBlob(host.hash(Wire(host, d)), |Wire(host, d)|, |d.entries|)), true)
  }

  /** A document that `get` serves. */
  predicate Servable(host: Host, d: Document, maxEntries: nat, maxBytes: nat) {
    d.version == MEMO_VERSION && 0 < |d.entries| <= maxEntries && d.root.algorithm == Blake3 && |Wire(host, d)| <= maxBytes
  }

  /** Where a stored record comes from: the observed entries and the document written for them. */
  datatype Origin = Origin(scope: Text, v: seq<ValidationEntry>, document: Document)

  ghost predicate Exact(host: Host, v: seq<ValidationEntry>, d: Document) {
    d.entries == FullHash(host, v) && d.root == host.hash(TreeStream(d.entries))
  }

  /** Some entry was observed under a key that has been replaced since. */
  ghost predicate Stale(superseded: set<EntryKey>, v: seq<ValidationEntry>) {
    exists i :: 0 <= i < |v| && v[i].metadata in superseded
  }

  /** The values have the widths of the machine types that hold them. */
  ghost predicate Representable(scope: Option<Text>, v: seq<ValidationEntry>) {
    && (scope.Some? ==> |scope.value| < TWO64)
    && |v| < TWO64
    && forall i :: 0 <= i < |v| ==> ValidationFits(v[i])
  }

  /** A record is filed under its own observation, points at its own document, and is exact unless its observation
      is stale. */
  ghost predicate Honest(host: Host, hashed: set<Text>, superseded: set<EntryKey>, m: Digest, r: MemoResult, o: Origin) {
    && |o.scope| < TWO64 && AllRememberable(o.v)
    && Preimage(o.scope, o.v) in hashed && m == host.hash(Preimage(o.scope, o.v))
    && Wire(host, o.document) in hashed
    && r.bundle.Some? && r.bundle.value.digest == host.hash(Wire(host, o.document))
    && (Exact(host, o.v, o.document) || Stale(superseded, o.v))
  }

  lemma HonestStays(host: Host, hashed: set<Text>, more: set<Text>, superseded: set<EntryKey>, later: set<EntryKey>,
      m: Digest, r: MemoResult, o: Origin)
    requires Honest(host, hashed, superseded, m, r, o) && hashed <= more && superseded <= later
    ensures Honest(host, more, later, m, r, o)
  {
    if Stale(superseded, o.v) {
      var i :| 0 <= i < |o.v| && o.v[i].metadata in superseded;
      assert o.v[i].metadata in later;
    }
  }

  ghost predicate AllHonest(host: Host, hashed: set<Text>, superseded: set<EntryKey>, actions: map<Digest, MemoResult>,
      origins: map<Digest, Origin>) {
    && origins.Keys == actions.Keys
    && forall m {:trigger Honest(host, hashed, superseded, m, actions[m], origins[m])} ::
         m in actions ==> Honest(host, hashed, superseded, m, actions[m], origins[m])
  }

  lemma AllStay(host: Host, hashed: set<Text>, more: set<Text>, superseded: set<EntryKey>, later: set<EntryKey>,
      actions: map<Digest, MemoResult>, origins: map<Digest, Origin>)
    requires AllHonest(host, hashed, superseded, actions, origins) && hashed <= more && superseded <= later
    ensures AllHonest(host, more, later, actions, origins)
  {
    forall m | m in actions ensures Honest(host, more, later, m, actions[m], origins[m]) {
      HonestStays(host, hashed, more, superseded, later, m, actions[m], origins[m]);
    }
  }

  lemma AllEvict(host: Host, hashed: set<Text>, superseded: set<EntryKey>, actions: map<Digest, MemoResult>,
      origins: map<Digest, Origin>, evicted: set<Digest>)
    requires AllHonest(host, hashed, superseded, actions, origins)
    ensures AllHonest(host, hashed, superseded, actions - evicted, origins - evicted)
  {
  }

  lemma AllExtend(host: Host, hashed: set<Text>, superseded: set<EntryKey>, actions: map<Digest, MemoResult>,
      origins: map<Digest, Origin>, n: Digest, r: MemoResult, o: Origin)
    requires AllHonest(host, hashed, superseded, actions, origins) && Honest(host, hashed, superseded, n, r, o)
    ensures AllHonest(host, hashed, superseded, actions[n := r], origins[n := o])
  {
    var a, b := actions[n := r], origins[n := o];
    forall m | m in a ensures Honest(host, hashed, superseded, m, a[m], b[m]) {
      assert m != n ==> Honest(host, hashed, superseded, m, actions[m], origins[m]);
    }
  }

  /** Bytes that carry the recorded digest are, short of a collision, the bytes of the recorded document. */
  lemma HonestBlob(host: Host, hashed: set<Text>, superseded: set<EntryKey>, actions: map<Digest, MemoResult>,
      origins: map<Digest, Origin>, m: Digest, bytes: Text)
    requires AllHonest(host, hashed, superseded, actions, origins) && m in actions && RoundTrips(host)
    requires actions[m].bundle.Some? && bytes in hashed && host.hash(bytes) == actions[m].bundle.value.digest
    ensures NoCollision(host.hash, hashed) ==> host.read(bytes) == Some(origins[m].document)
  {
    assert Honest(host, hashed, superseded, m, actions[m], origins[m]);
  }

  /** A record found under the digest of the present observation was written for that very observation. */
  lemma SameObservation(host: Host, hashed: set<Text>, superseded: set<EntryKey>, m: Digest, r: MemoResult, o: Origin,
      scope: Text, v: seq<ValidationEntry>)
    requires Honest(host, hashed, superseded, m, r, o) && NoCollision(host.hash, hashed)
    requires |scope| < TWO64 && AllRememberable(v) && Preimage(scope, v) in hashed && m == host.hash(Preimage(scope, v))
    ensures o.v == v && o.scope == scope
  {
    PreimageIsInjective(scope, v, o.scope, o.v);
  }

  /** What another process may do to the store: evict and damage, or publish its own snapshot. */
  datatype Foreign =
    | Damage(evicted: set<Digest>, blobs: map<Digest, Text>)
    | Remember(scope: Text, v: seq<ValidationEntry>, document: Document, maxBytes: nat)

  /** Another process publishes as this one does: exact for what it observed, unless a key was replaced meanwhile. */
  ghost predicate Fair(host: Host, superseded: set<EntryKey>, f: Foreign) {
    f.Remember? ==> |f.scope| < TWO64 && AllRememberable(f.v) && (Exact(host, f.v, f.document) || Stale(superseded, f.v))
  }

  /** Once its path shows another key, the observed key is among those replaced. */
  ghost predicate ReplacementsNoted(obs: Observations, v: seq<ValidationEntry>, replaced: set<EntryKey>) {
    forall i, k :: 0 <= i < |v| && obs.shows(v[i].path, k) && k != v[i].metadata ==> v[i].metadata in replaced
  }

  lemma ChangedIsStale(obs: Observations, v: seq<ValidationEntry>, w: seq<ValidationEntry>, replaced: set<EntryKey>,
      superseded: set<EntryKey>)
    requires Fresh(obs, v, w) && ReplacementsNoted(obs, v, replaced) && replaced <= superseded
    ensures w == v || Stale(superseded, v)
  {
  }

  /** What the store holds for the present observation is exact. */
  lemma ExactHit(host: Host, hashed: set<Text>, superseded: set<EntryKey>, actions: map<Digest, MemoResult>,
      origins: map<Digest, Origin>,
                 m: Digest, scope: Text, v: seq<ValidationEntry>)
    requires AllHonest(host, hashed, superseded, actions, origins) && m in actions && !Stale(superseded, v)
    requires |scope| < TWO64 && AllRememberable(v) && Preimage(scope, v) in hashed && m == host.hash(Preimage(scope, v))
    ensures NoCollision(host.hash, hashed) ==> Exact(host, v, origins[m].document)
  {
    assert Honest(host, hashed, superseded, m, actions[m], origins[m]);
    if NoCollision(host.hash, hashed) {
      SameObservation(host, hashed, superseded, m, actions[m], origins[m], scope, v);
    }
  }

  // ----- when an exact record is found again

  /** Discovered entries are in the byte order of their whole paths. */
  ghost predicate InStringOrder(v: seq<ValidationEntry>) {
    forall i, k :: 0 <= i < k < |v| ==> TextLe(v[i].path, v[k].path)
  }

  /** A key vouches for length and executable bit, and files are hashed with BLAKE3. */
  ghost predicate KeysDescribe(host: Host, v: seq<ValidationEntry>) {
    forall i :: 0 <= i < |v| && v[i].kind.FileKind? ==>
      && host.content(v[i].metadata).algorithm == Blake3 && host.content(v[i].metadata).size == v[i].metadata.length
      && host.executable(v[i].metadata) == v[i].kind.executable
  }

  lemma StringOrderIsFullHash(host: Host, v: seq<ValidationEntry>)
    requires UniquePaths(v)
    ensures InStringOrder(v) ==> FullHash(host, v) == Hashed(host, v)
    ensures SortedBy(EntryLe, FullHash(host, v))
  {
    var h := Hashed(host, v);
    HashedPathsDiffer(host, v);
    if InStringOrder(v) {
      HashedInOrder(host, v);
      OrderIsUnique(h, h);
    }
    EntryOrderIsTotal();
    SortIsSorted(EntryLe, h);
  }

  lemma HashedInOrder(host: Host, v: seq<ValidationEntry>)
    requires InStringOrder(v)
    ensures SortedBy(EntryLe, Hashed(host, v))
  {
  }

  lemma OwnEntryMatches(host: Host, v: seq<ValidationEntry>, i: nat)
    requires i < |v| && KeysDescribe(host, v)
    ensures EntryMatches(EntryOf(host, v[i]), v[i])
  {
  }

  lemma MatchingOrder(entries: seq<InputEntry>, v: seq<ValidationEntry>)
    requires |entries| == |v| && SortedBy(EntryLe, entries) && forall i :: 0 <= i < |v| ==> EntryMatches(entries[i], v[i])
    ensures InStringOrder(v)
  {
  }

  /** An exact record is accepted if and only if discovery order is string order. */
  lemma ExactMatchesIffStringOrder(host: Host, v: seq<ValidationEntry>, d: Document)
    requires UniquePaths(v) && KeysDescribe(host, v) && Exact(host, v, d)
    ensures MemoMatches(host, d.root, d.entries, v) <==> InStringOrder(v)
  {
    StringOrderIsFullHash(host, v);
    if InStringOrder(v) {
      forall i | 0 <= i < |v| ensures EntryMatches(d.entries[i], v[i]) { OwnEntryMatches(host, v, i); }
    }
    if MemoMatches(host, d.root, d.entries, v) {
      MatchingOrder(d.entries, v);
    }
  }

  /** `a/c` comes before `a-b` component by component, but after it byte by byte: such a snapshot is never remembered. */
  lemma ComponentOrderIsNotStringOrder(key: EntryKey)
    ensures var deep, flat := [97, 47, 99], [97, 45, 98];
            && PathLe(Split(deep), Split(flat))
            && !InStringOrder([ValidationEntry(deep, FileKind(false), key), ValidationEntry(flat, FileKind(false), key)])
  {
    var deep: Text, flat: Text := [97, 47, 99], [97, 45, 98];
    var v := [ValidationEntry(deep, FileKind(false), key), ValidationEntry(flat, FileKind(false), key)];
    assert deep[1..] == [47, 99] && flat[1..] == [45, 98];
    assert !TextLe(deep, flat) by { assert !LexLe(ByteLe, deep[1..], flat[1..]); }
    assert v[0].path == deep && v[1].path == flat;
    var name: Text, rest: Text := [97], [99];
    SplitAppend(name, rest);
    SplitPlain(name);
    assert name + [SLASH] + rest == deep;
    SplitPlain(flat);
    assert Split(deep)[0] == name && Split(flat)[0] == flat;
    assert TextLe(name, flat) by { LexPrefix(ByteLe, name, flat); }
  }

  class DigestMemo {
    const host: Host
    var actions: map<Digest, MemoResult>
    var blobs: map<Digest, Text>
    ghost var origins: map<Digest, Origin>
    ghost var hashed: set<Text>
    ghost var superseded: set<EntryKey>

    ghost predicate Valid()
      reads this
    {
      AllHonest(host, hashed, superseded, actions, origins)
    }

    constructor (host: Host)
      ensures Valid() && actions.Keys == {} && this.host == host
    {
      this.host := host;
      actions, blobs, origins, hashed, superseded := map[], map[], map[], {}, {};
    }

    /** The record and the intact bytes of this document are in the store. */
    ghost predicate Stored(m: Digest, d: Document)
      reads this
    {
      && m in actions && actions[m] == RecordFor(host, m, d)
      && host.hash(Wire(host, d)) in blobs && blobs[host.hash(Wire(host, d))] == Wire(host, d)
    }

    /** Logs hashed texts and replaced keys. */
    ghost method Note(texts: set<Text>, replaced: set<EntryKey>)
      requires Valid()
      modifies this`hashed, this`superseded
      ensures Valid() && hashed == old(hashed) + texts && superseded == old(superseded) + replaced
    {
      AllStay(host, hashed, hashed + texts, superseded, superseded + replaced, actions, origins);
      hashed, superseded := hashed + texts, superseded + replaced;
    }

    /** Eviction of records and arbitrary damage to stored blobs. */
    method Disturb(evicted: set<Digest>, damaged: map<Digest, Text>)
      requires Valid()
      modifies this`actions, this`origins, this`blobs
      ensures Valid() && blobs == damaged && actions == old(actions) - evicted
    {
      AllEvict(host, hashed, superseded, actions, origins, evicted);
      actions, blobs := actions - evicted, damaged;
      origins := origins - evicted;
    }

    /** `DigestMemo::get`; `readable` is false when the store answers with an error. */
    method Get(metadata: Digest, maxEntries: nat, maxBytes: nat, readable: bool) returns (r: Option<Document>)
      requires Valid() && RoundTrips(host)
      modifies this`hashed, this`superseded
      ensures Valid() && old(hashed) <= hashed && superseded == old(superseded)
      ensures r.Some? ==> metadata in actions && r.value.entries != [] && |r.value.entries| <= maxEntries
      ensures forall d :: readable && Stored(metadata, d) && Servable(host, d, maxEntries, maxBytes) ==> r == Some(d)
      ensures r.Some? && NoCollision(host.hash, hashed) ==> r.value == origins[metadata].document
    {
      if !readable || metadata !in actions {
        return None;
      }
      var result := actions[metadata];
      if result.action != metadata || !result.plain || result.bundle.None? {
        return None;
      }
      var blob := result.bundle.value;
      if blob.size > maxBytes || blob.entryCount > maxEntries || blob.digest !in blobs {
        return None;
      }
      var bytes := blobs[blob.digest];
      Note({bytes}, {});
      if |bytes| != blob.size || host.hash(bytes) != blob.digest {
        return None;
      }
      HonestBlob(host, hashed, superseded, actions, origins, metadata, bytes);
      var document := host.read(bytes);
      if document.None? || document.value.version != MEMO_VERSION || document.value.entries == []
         || |document.value.entries| > maxEntries || document.value.root.algorithm != Blake3 {
        return None;
      }
      return document;
    }

    /** `write_blob_if_absent`. */
    method WriteBlob(bytes: Text, entryCount: nat) returns (blob: MemoBlob)
      modifies this`blobs
      ensures blobs == if blob.digest in old(blobs) then old(blobs) else old(blobs)[blob.digest := bytes]
      ensures blob == MemoBlob(host.hash(bytes), |bytes|, entryCount)
    {
      blob := MemoBlob(host.hash(bytes), |bytes|, entryCount);
      if blob.digest !in blobs {
        blobs := blobs[blob.digest := bytes];
      }
    }

    /** `write_action_if_absent`: the first record for a digest stays. */
    method WriteAction(result: MemoResult, ghost origin: Origin)
      requires Valid() && Honest(host, hashed, superseded, result.action, result, origin)
      modifies this`actions, this`origins
      ensures Valid()
      ensures actions == if result.action in old(actions) then old(actions) else old(actions)[result.action := result]
    {
      if result.action !in actions {
        AllExtend(host, hashed, superseded, actions, origins, result.action, result, origin);
        actions := actions[result.action := result];
        origins := origins[result.action := origin];
      }
    }

    /** `DigestMemo::put`; `writable` is false when the store answers with an error. */
    method Put(metadata: Digest, document: Document, maxBytes: nat, writable: bool, ghost scope: Text,
        ghost v: seq<ValidationEntry>)
      requires Valid() && |scope| < TWO64 && AllRememberable(v)
      requires Preimage(scope, v) in hashed && metadata == host.hash(Preimage(scope, v))
      requires Exact(host, v, document) || Stale(superseded, v)
      modifies this
      ensures Valid() && superseded == old(superseded) && old(hashed) <= hashed
      ensures var filed := document.entries != [] && writable && |Wire(host, document)| <= maxBytes;
              if filed && metadata !in old(actions) then actions == old(actions)[metadata := RecordFor(host, metadata, document)]
              else actions == old(actions)
      ensures (document.entries != [] && writable && |Wire(host, document)| <= maxBytes
               && metadata !in old(actions) && host.hash(Wire(host, document)) !in old(blobs)) ==> Stored(metadata, document)
    {
      if document.entries == [] || !writable {
        return;
      }
      var encoded := Serialize(host.write(document), maxBytes);
      if encoded.None? {
        return;
      }
      Note({encoded.value}, {});
      var blob := WriteBlob(encoded.value, |document.entries|);
      WriteAction(MemoResult(metadata, Some(blob), true), Origin(scope, v, document));
    }

    /** The warm path: a record that matches the present observation. */
    method Lookup(scope: Text, v: seq<ValidationEntry>, metadata: Digest, maxEntries: nat, maxBytes: nat, readable: bool)
      returns (r: Option<Document>)
      requires Valid() && RoundTrips(host) && |scope| < TWO64 && AllRememberable(v) && !Stale(superseded, v)
      requires Preimage(scope, v) in hashed && metadata == host.hash(Preimage(scope, v))
      modifies this`hashed, this`superseded
      ensures Valid() && old(hashed) <= hashed && superseded == old(superseded)
      ensures r.Some? ==> MemoMatches(host, r.value.root, r.value.entries, v)
      ensures r.Some? && NoCollision(host.hash, hashed) ==> Exact(host, v, r.value)
    {
      r := Get(metadata, maxEntries, maxBytes, readable);
      if r.Some? && !MemoMatches(host, r.value.root, r.value.entries, v) {
        return None;
      }
      if r.Some? {
        ExactHit(host, hashed, superseded, actions, origins, metadata, scope, v);
      }
    }

    /** The publishing end of the cold path. */
    method Publish(scope: Text, ghost v: seq<ValidationEntry>, ghost w: seq<ValidationEntry>, metadata: Digest,
        document: Document,
                   maxBytes: nat, writable: bool, ghost obs: Observations, ghost replaced: set<EntryKey>)
      requires Valid() && |scope| < TWO64 && AllRememberable(v)
      requires Preimage(scope, v) in hashed && metadata == host.hash(Preimage(scope, v))
      requires Fresh(obs, v, w) && Exact(host, w, document) && ReplacementsNoted(obs, v, replaced)
      modifies this
      ensures Valid() && old(hashed) <= hashed && superseded == old(superseded) + replaced
    {
      Note({}, replaced);
      ChangedIsStale(obs, v, w, replaced, superseded);
      Put(metadata, document, maxBytes, writable, scope, v);
    }

    /** What other processes do to the same store meanwhile. */
    method Others(acts: seq<Foreign>)
      requires Valid() && forall i :: 0 <= i < |acts| ==> Fair(host, superseded, acts[i])
      modifies this
      ensures Valid() && old(hashed) <= hashed && superseded == old(superseded)
    {
      for i := 0 to |acts|
        invariant Valid() && old(hashed) <= hashed && superseded == old(superseded)
      {
        match acts[i] {
          case Damage(evicted, damaged) => Disturb(evicted, damaged);
          case Remember(scope, v, document, maxBytes) =>
            Note({Preimage(scope, v)}, {});
            Put(host.hash(Preimage(scope, v)), document, maxBytes, true, scope, v);
        }
      }
    }

    /** `snapshot_pattern_sets` after discovery; not `ok` when a read fails. `before` and `meanwhile` are the acts of other processes
        on the same store: until the lookup, and until the publication. */
    method Snapshot(scope: Option<Text>, v: seq<ValidationEntry>, obs: Observations, maxEntries: nat, maxBytes: nat,
                    readable: bool, writable: bool, before: seq<Foreign>, meanwhile: seq<Foreign>, ghost replaced: set<EntryKey>)
      returns (ok: bool, hit: bool, root: Digest, entries: seq<InputEntry>, w: seq<ValidationEntry>)
      requires Valid() && RoundTrips(host) && Truthful(obs) && UniquePaths(v) && Representable(scope, v)
      requires !Stale(superseded, v) && ReplacementsNoted(obs, v, replaced)
      requires forall i :: 0 <= i < |before| ==> Fair(host, superseded, before[i])
      requires forall i :: 0 <= i < |meanwhile| ==> Fair(host, superseded + replaced, meanwhile[i])
      modifies this
      ensures Valid() && old(hashed) <= hashed && old(superseded) <= superseded
      ensures !ok ==> ReadFails(obs, FilesOf(v))
      ensures ok && !hit ==> !ReadFails(obs, FilesOf(v))
      ensures ok ==> Fresh(obs, v, w) && (hit ==> w == v)
      ensures ok && (!hit || NoCollision(host.hash, hashed)) ==> entries == FullHash(host, w)
      ensures ok ==> root == host.hash(TreeStream(entries))
    {
      Others(before);
      var input := MetadataInput(v, scope);
      if input.Some? {
        Note({input.value.0}, {});
        var found := Lookup(scope.value, v, host.hash(input.value.0), maxEntries, maxBytes, readable);
        if found.Some? {
          return true, true, found.value.root, found.value.entries, v;
        }
      }
      var hashing := HashEverything(host, obs, v);
      if hashing.None? {
        return false, false, host.hash([]), [], v;
      }
      ok, hit, w, entries := true, false, hashing.value.0, hashing.value.1;
      var stream, _ := RootInput(entries);
      root := host.hash(stream);
      Note({}, replaced);
      Others(meanwhile);
      if input.Some? {
        Publish(scope.value, v, w, host.hash(input.value.0), Document(MEMO_VERSION, root, entries), maxBytes, writable, obs, replaced);
      }
    }
  }
}
