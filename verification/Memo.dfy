/** Input snapshots: hashing with hardlink de-duplication, and the digest memo that may answer instead. */
module Memo {
  import opened Orders
  import opened Paths
  import opened Bytes
  import opened InputTree
  import opened Metadata

  const MEMO_VERSION := 1

  datatype Document = Document(version: nat, root: Digest, entries: seq<InputEntry>)

  /** The hash function, the document format, and the file contents that a metadata key stands for. */
  datatype Host = Host(
    hash: Text -> Digest,
    write: Document -> seq<Text>,
    read: Text -> Option<Document>,
    content: EntryKey -> Digest,
    executable: EntryKey -> bool)

  function Flat(chunks: seq<Text>): Text { ConcatMap((t: Text) => t, chunks) }

  function Wire(host: Host, d: Document): Text { Flat(host.write(d)) }

  /** Reading back a written document gives that document. */
  ghost predicate RoundTrips(host: Host) {
    forall d :: host.read(Wire(host, d)) == Some(d)
  }

  /** No two different texts among these share a digest. */
  ghost predicate NoCollision(hash: Text -> Digest, texts: set<Text>) {
    forall a, b :: a in texts && b in texts && hash(a) == hash(b) ==> a == b
  }

  /** The entry that hashing every file would give. */
  function EntryOf(host: Host, e: ValidationEntry): InputEntry {
    match e.kind
    case DirectoryKind => Directory(e.path)
    case FileKind(_) => File(e.path, host.content(e.metadata), host.executable(e.metadata))
    case SymlinkKind(target) => Symlink(e.path, target)
  }

  function Hashed(host: Host, v: seq<ValidationEntry>): (r: seq<InputEntry>)
    ensures |r| == |v| && forall i :: 0 <= i < |v| ==> r[i] == EntryOf(host, v[i])
  {
    seq(|v|, i requires 0 <= i < |v| => EntryOf(host, v[i]))
  }

  /** What full hashing of these entries produces. */
  function FullHash(host: Host, v: seq<ValidationEntry>): seq<InputEntry> { InOrder(Hashed(host, v)) }

  ghost predicate UniquePaths(v: seq<ValidationEntry>) {
    forall i, k :: 0 <= i < k < |v| ==> v[i].path != v[k].path
  }

  // ----- hardlink de-duplication

  datatype FileInput = FileInput(index: nat, path: Text, key: EntryKey)

  /** Every file points at the one request for its key, and `counts` says how many files do. */
  ghost predicate Requested(files: seq<FileInput>, requests: seq<(Text, EntryKey)>, indices: seq<nat>) {
    && |indices| == |files|
    && (forall i :: 0 <= i < |files| ==> indices[i] < |requests| && requests[indices[i]].1 == files[i].key)
    && (forall j, k :: 0 <= j < k < |requests| ==> requests[j].1 != requests[k].1)
    && (forall j :: 0 <= j < |requests| ==> FirstAsker(files, requests, indices, j))
  }

  /** The first file with its key, in discovery order. */
  ghost predicate FirstWithKey(files: seq<FileInput>, i: int) {
    0 <= i < |files| && forall k :: 0 <= k < i ==> files[k].key != files[i].key
  }

  /** The request was made for the first file with its key. */
  ghost predicate FirstAsker(files: seq<FileInput>, requests: seq<(Text, EntryKey)>, indices: seq<nat>, j: nat)
    requires |indices| == |files| && j < |requests|
  {
    exists i :: FirstWithKey(files, i) && indices[i] == j && files[i].path == requests[j].0
  }

  ghost predicate Tally(indices: seq<nat>, counts: seq<nat>) {
    forall j :: 0 <= j < |counts| ==> counts[j] == multiset(indices)[j]
  }

  lemma Append(files: seq<FileInput>, n: nat, requests: seq<(Text, EntryKey)>, more: seq<(Text, EntryKey)>,
      indices: seq<nat>, index: nat)
    requires n < |files| && Requested(files[..n], requests, indices)
    requires more == requests || (more == requests + [(files[n].path, files[n].key)] && index == |requests|)
    requires index < |more| && more[index].1 == files[n].key
    requires more != requests ==> forall j :: 0 <= j < |requests| ==> requests[j].1 != files[n].key
    ensures Requested(files[..n + 1], more, indices + [index])
  {
    var fs, ks := files[..n + 1], indices + [index];
    forall j | 0 <= j < |more| ensures FirstAsker(fs, more, ks, j) {
      if j < |requests| {
        assert FirstAsker(files[..n], requests, indices, j);
        var i :| FirstWithKey(files[..n], i) && indices[i] == j && files[..n][i].path == requests[j].0;
        assert FirstWithKey(fs, i) && ks[i] == j && fs[i].path == more[j].0;
      } else {
        forall k | 0 <= k < n ensures fs[k].key != fs[n].key {
          assert files[..n][k].key == requests[indices[k]].1;
        }
        assert FirstWithKey(fs, n) && ks[n] == j && fs[n].path == more[j].0;
      }
    }
  }

  /** `unique_hash_requests`: one request per key, one index per file, one count per request. */
  method UniqueHashRequests(files: seq<FileInput>) returns (requests: seq<(Text, EntryKey)>, indices: seq<nat>, counts: seq<nat>)
    ensures Requested(files, requests, indices)
    ensures |counts| == |requests| && Tally(indices, counts)
  {
    var byKey: map<EntryKey, nat> := map[];
    requests, indices, counts := [], [], [];
    for n := 0 to |files|
      invariant Requested(files[..n], requests, indices) && |counts| == |requests| && Tally(indices, counts)
      invariant forall k :: k in byKey ==> byKey[k] < |requests| && requests[byKey[k]].1 == k
      invariant forall j :: 0 <= j < |requests| ==> requests[j].1 in byKey
    {
      var f := files[n];
      ghost var before := requests;
      var index := |requests|;
      if f.key in byKey {
        index := byKey[f.key];
      } else {
        assert |requests| !in indices;
        requests := requests + [(f.path, f.key)];
        byKey := byKey[f.key := index];
        counts := counts + [0];
      }
      Append(files, n, before, requests, indices, index);
      counts := counts[index := counts[index] + 1];
      indices := indices + [index];
    }
    assert files[..|files|] == files;
  }

  lemma TwoAskers(indices: seq<nat>, i: nat, k: nat)
    requires i < k < |indices| && indices[i] == indices[k]
    ensures multiset(indices)[indices[i]] >= 2
  {
    var j := indices[i];
    assert indices == indices[..k] + indices[k..] && indices[..k][i] == j && indices[k..][0] == j;
    assert j in multiset(indices[..k]) && j in multiset(indices[k..]);
  }

  // ----- what the file system shows while a snapshot is taken

  /** `batch` and `retry`: the key under which a stable read settled; `current`: the key a fresh look finds; each may fail. */
  datatype Observations = Observations(
    batch: (Text, EntryKey) -> EntryKey, batchFails: (Text, EntryKey) -> bool,
    current: Text -> EntryKey, currentFails: Text -> bool,
    retry: (Text, EntryKey) -> EntryKey, retryFails: (Text, EntryKey) -> bool,
    shows: (Text, EntryKey) -> bool)

  ghost predicate Truthful(obs: Observations) {
    && (forall p, k :: obs.shows(p, obs.batch(p, k)))
    && (forall p, k :: obs.shows(p, obs.retry(p, k)))
    && (forall p :: obs.shows(p, obs.current(p)))
  }

  datatype HashedFile = HashedFile(key: EntryKey, content: Digest, executable: bool)

  /** A stable read returns the content that its key stands for. */
  function StableRead(host: Host, key: EntryKey): HashedFile { HashedFile(key, host.content(key), host.executable(key)) }

  /** Each path gets the digest of a key that the path itself showed. */
  ghost predicate OwnDigests(host: Host, obs: Observations, files: seq<FileInput>, hashed: seq<HashedFile>) {
    && |hashed| <= |files|
    && forall i :: 0 <= i < |hashed| ==> obs.shows(files[i].path, hashed[i].key) && hashed[i] == StableRead(host, hashed[i].key)
  }

  lemma SoleRequestIsOwn(files: seq<FileInput>, requests: seq<(Text, EntryKey)>, indices: seq<nat>, i: nat)
    requires Requested(files, requests, indices) && i < |files| && multiset(indices)[indices[i]] <= 1
    ensures requests[indices[i]].0 == files[i].path
  {
    var j := indices[i];
    assert FirstAsker(files, requests, indices, j);
    var k :| FirstWithKey(files, k) && indices[k] == j && files[k].path == requests[j].0;
    if k < i {
      TwoAskers(indices, k, i);
    }
  }

  /** Another file has the same key. */
  ghost predicate SharedKey(files: seq<FileInput>, i: nat)
    requires i < |files|
  {
    exists k :: 0 <= k < |files| && k != i && files[k].key == files[i].key
  }

  lemma AnotherAsker(indices: seq<nat>, i: nat) returns (k: nat)
    requires i < |indices| && multiset(indices)[indices[i]] > 1
    ensures k < |indices| && k != i && indices[k] == indices[i]
  {
    var others := indices[..i] + indices[i + 1..];
    assert indices == indices[..i] + [indices[i]] + indices[i + 1..];
    assert multiset(indices) == multiset(others) + multiset{indices[i]};
    assert indices[i] in multiset(others);
    var m :| 0 <= m < |others| && others[m] == indices[i];
    k := if m < i then m else m + 1;
  }

  /** The alias count of a file's request says whether its key is shared. */
  lemma CountsAliases(files: seq<FileInput>, requests: seq<(Text, EntryKey)>, indices: seq<nat>, i: nat)
    requires Requested(files, requests, indices) && i < |files|
    ensures multiset(indices)[indices[i]] > 1 <==> SharedKey(files, i)
  {
    if multiset(indices)[indices[i]] > 1 {
      var k := AnotherAsker(indices, i);
      assert files[k].key == files[i].key;
    }
    if SharedKey(files, i) {
      var k :| 0 <= k < |files| && k != i && files[k].key == files[i].key;
      assert indices[k] == indices[i];
      if k < i { TwoAskers(indices, k, i); } else { TwoAskers(indices, i, k); }
    }
  }

  /** The read for the key of file `i`, made at the first file `f` with that key, or the check of an alias fails. */
  ghost predicate FileFails(obs: Observations, files: seq<FileInput>, i: nat, f: int)
    requires i < |files|
  {
    && FirstWithKey(files, f) && files[f].key == files[i].key
    && (|| obs.batchFails(files[f].path, files[f].key)
        || (SharedKey(files, i) && AliasFails(obs, files[i].path, files[i].key, obs.batch(files[f].path, files[f].key))))
  }

  predicate AliasFails(obs: Observations, path: Text, key: EntryKey, settled: EntryKey) {
    obs.currentFails(path) || (obs.current(path) != settled && obs.retryFails(path, key))
  }

  /** Some read that a snapshot of these files makes fails. */
  ghost predicate ReadFails(obs: Observations, files: seq<FileInput>) {
    exists i, f :: 0 <= i < |files| && FileFails(obs, files, i, f)
  }

  /** `hash_many`: nothing when one of its reads fails. */
  method HashMany(host: Host, obs: Observations, requests: seq<(Text, EntryKey)>) returns (r: Option<seq<HashedFile>>)
    ensures r.None? <==> exists j :: 0 <= j < |requests| && obs.batchFails(requests[j].0, requests[j].1)
    ensures r.Some? ==> |r.value| == |requests|
    ensures r.Some? ==> forall j :: 0 <= j < |requests| ==> r.value[j] == StableRead(host, obs.batch(requests[j].0, requests[j].1))
  {
    var hashes: seq<HashedFile> := [];
    for j := 0 to |requests|
      invariant |hashes| == j && forall k :: 0 <= k < j ==> !obs.batchFails(requests[k].0, requests[k].1)
      invariant forall k :: 0 <= k < j ==> hashes[k] == StableRead(host, obs.batch(requests[k].0, requests[k].1))
    {
      if obs.batchFails(requests[j].0, requests[j].1) {
        return None;
      }
      hashes := hashes + [StableRead(host, obs.batch(requests[j].0, requests[j].1))];
    }
    return Some(hashes);
  }

  /** One alias of a hardlink group: keep the shared hash if the path still shows its key, else read again. */
  method CheckAlias(host: Host, obs: Observations, path: Text, key: EntryKey, shared: HashedFile) returns (r: Option<HashedFile>)
    requires Truthful(obs) && shared == StableRead(host, shared.key)
    ensures r.None? <==> AliasFails(obs, path, key, shared.key)
    ensures r.Some? ==> obs.shows(path, r.value.key) && r.value == StableRead(host, r.value.key)
  {
    if obs.currentFails(path) {
      return None;
    }
    if obs.current(path) == shared.key {
      return Some(shared);
    }
    if obs.retryFails(path, key) {
      return None;
    }
    return Some(StableRead(host, obs.retry(path, key)));
  }

  /** Where the hash of file `i` comes from. */
  lemma RequestOfFile(files: seq<FileInput>, requests: seq<(Text, EntryKey)>, indices: seq<nat>, i: nat) returns (f: nat)
    requires Requested(files, requests, indices) && i < |files|
    ensures FirstWithKey(files, f) && files[f].key == files[i].key && requests[indices[i]] == (files[f].path, files[f].key)
    ensures forall g :: FirstWithKey(files, g) && files[g].key == files[i].key ==> g == f
  {
    assert FirstAsker(files, requests, indices, indices[i]);
    f :| FirstWithKey(files, f) && indices[f] == indices[i] && files[f].path == requests[indices[i]].0;
  }

  lemma BatchFailureIsReadFailure(obs: Observations, files: seq<FileInput>, requests: seq<(Text, EntryKey)>,
      indices: seq<nat>, j: nat)
    requires Requested(files, requests, indices) && j < |requests| && obs.batchFails(requests[j].0, requests[j].1)
    ensures ReadFails(obs, files)
  {
    assert FirstAsker(files, requests, indices, j);
    var f :| FirstWithKey(files, f) && indices[f] == j && files[f].path == requests[j].0;
    assert FileFails(obs, files, f, f);
  }

  /** What `HashFiles` does with file `i`. */
  method HashFile(host: Host, obs: Observations, files: seq<FileInput>, ghost requests: seq<(Text, EntryKey)>,
      ghost indices: seq<nat>,
                  i: nat, shared: HashedFile, count: nat)
    returns (r: Option<HashedFile>)
    requires Truthful(obs) && Requested(files, requests, indices) && i < |files| && count == multiset(indices)[indices[i]]
    requires shared == StableRead(host, obs.batch(requests[indices[i]].0, requests[indices[i]].1))
    requires !obs.batchFails(requests[indices[i]].0, requests[indices[i]].1)
    ensures r.None? <==> exists f :: FileFails(obs, files, i, f)
    ensures r.Some? ==> obs.shows(files[i].path, r.value.key) && r.value == StableRead(host, r.value.key)
  {
    ghost var f := RequestOfFile(files, requests, indices, i);
    CountsAliases(files, requests, indices, i);
    if count > 1 {
      r := CheckAlias(host, obs, files[i].path, files[i].key, shared);
      assert r.None? ==> FileFails(obs, files, i, f);
    } else {
      SoleRequestIsOwn(files, requests, indices, i);
      r := Some(shared);
    }
  }

  /** The hashing part of `snapshot_pattern_sets`, with the re-inspection of every hardlink alias; `None` when a read fails. */
  method HashFiles(host: Host, obs: Observations, files: seq<FileInput>) returns (r: Option<seq<HashedFile>>)
    requires Truthful(obs)
    ensures r.None? <==> ReadFails(obs, files)
    ensures r.Some? ==> |r.value| == |files| && OwnDigests(host, obs, files, r.value)
  {
    var requests, indices, counts := UniqueHashRequests(files);
    var hashes := HashMany(host, obs, requests);
    if hashes.None? {
      ghost var j :| 0 <= j < |requests| && obs.batchFails(requests[j].0, requests[j].1);
      BatchFailureIsReadFailure(obs, files, requests, indices, j);
      return None;
    }
    var hashed: seq<HashedFile> := [];
    for i := 0 to |files|
      invariant |hashed| == i && OwnDigests(host, obs, files, hashed)
      invariant forall k, f :: 0 <= k < i ==> !FileFails(obs, files, k, f)
    {
      var h := HashFile(host, obs, files, requests, indices, i, hashes.value[indices[i]], counts[indices[i]]);
      if h.None? {
        return None;
      }
      hashed := hashed + [h.value];
    }
    return Some(hashed);
  }

  // ----- assembling the entries

  /** The positions, below `n`, of files (`file`) or of everything else. */
  function Positions(v: seq<ValidationEntry>, file: bool, n: nat): (r: seq<nat>)
    requires n <= |v|
    ensures forall t :: 0 <= t < |r| ==> r[t] < n && v[r[t]].kind.FileKind? == file
    ensures forall t, u :: 0 <= t < u < |r| ==> r[t] < r[u]
  {
    if n == 0 then []
    else if v[n - 1].kind.FileKind? == file then Positions(v, file, n - 1) + [n - 1]
    else Positions(v, file, n - 1)
  }

  function At(host: Host, v: seq<ValidationEntry>, positions: seq<nat>): (r: seq<InputEntry>)
    requires forall t :: 0 <= t < |positions| ==> positions[t] < |v|
    ensures |r| == |positions| && forall t :: 0 <= t < |r| ==> r[t] == EntryOf(host, v[positions[t]])
  {
    seq(|positions|, t requires 0 <= t < |positions| => EntryOf(host, v[positions[t]]))
  }

  function FilesAt(v: seq<ValidationEntry>, positions: seq<nat>): (r: seq<FileInput>)
    requires forall t :: 0 <= t < |positions| ==> positions[t] < |v|
    ensures |r| == |positions|
    ensures forall t :: 0 <= t < |r| ==> r[t] == FileInput(positions[t], v[positions[t]].path, v[positions[t]].metadata)
  {
    seq(|positions|, t requires 0 <= t < |positions| => FileInput(positions[t], v[positions[t]].path, v[positions[t]].metadata))
  }

  function EntriesAt(host: Host, v: seq<ValidationEntry>, file: bool, n: nat): seq<InputEntry>
    requires n <= |v|
  {
    At(host, v, Positions(v, file, n))
  }

  lemma EntriesGrow(host: Host, v: seq<ValidationEntry>, n: nat)
    requires 0 < n <= |v|
    ensures Hashed(host, v[..n]) == Hashed(host, v[..n - 1]) + [EntryOf(host, v[n - 1])]
    ensures EntriesAt(host, v, v[n - 1].kind.FileKind?, n) == EntriesAt(host, v, v[n - 1].kind.FileKind?, n - 1) + [EntryOf(host, v[n - 1])]
    ensures EntriesAt(host, v, !v[n - 1].kind.FileKind?, n) == EntriesAt(host, v, !v[n - 1].kind.FileKind?, n - 1)
  {
  }

  lemma OneMoreOnEachSide<T>(a: seq<T>, b: seq<T>, c: seq<T>, e: T)
    requires multiset(a) == multiset(b) + multiset(c)
    ensures multiset(a + [e]) == multiset(b + [e]) + multiset(c)
  {
  }

  /** Files and non-files together are all the entries. */
  lemma {:induction false} PositionsPartition(host: Host, v: seq<ValidationEntry>, n: nat)
    requires n <= |v|
    ensures Partitioned(Hashed(host, v[..n]), EntriesAt(host, v, false, n), EntriesAt(host, v, true, n))
  {
    if n > 0 {
      PositionsPartition(host, v, n - 1);
      PartitionGrows(host, v, n);
    }
  }

  ghost predicate Partitioned(all: seq<InputEntry>, plain: seq<InputEntry>, files: seq<InputEntry>) {
    multiset(all) == multiset(plain) + multiset(files)
  }

  lemma PartitionGrows(host: Host, v: seq<ValidationEntry>, n: nat)
    requires 0 < n <= |v| && Partitioned(Hashed(host, v[..n - 1]), EntriesAt(host, v, false, n - 1), EntriesAt(host, v, true, n - 1))
    ensures Partitioned(Hashed(host, v[..n]), EntriesAt(host, v, false, n), EntriesAt(host, v, true, n))
  {
    EntriesGrow(host, v, n);
    var e := EntryOf(host, v[n - 1]);
    var all, plain, files := Hashed(host, v[..n - 1]), EntriesAt(host, v, false, n - 1), EntriesAt(host, v, true, n - 1);
    if v[n - 1].kind.FileKind? {
      OneMoreOnEachSide(all, files, plain, e);
    } else {
      OneMoreOnEachSide(all, plain, files, e);
    }
  }

  /** `w` is `v` with other metadata on some of its files. */
  ghost predicate Remeasured(v: seq<ValidationEntry>, w: seq<ValidationEntry>) {
    && |w| == |v|
    && (forall i :: 0 <= i < |v| ==> w[i].path == v[i].path && w[i].kind == v[i].kind)
    && (forall i :: 0 <= i < |v| && !v[i].kind.FileKind? ==> w[i] == v[i])
  }

  lemma {:induction false} PositionsKept(v: seq<ValidationEntry>, w: seq<ValidationEntry>, file: bool, n: nat)
    requires Remeasured(v, w) && n <= |v|
    ensures Positions(v, file, n) == Positions(w, file, n)
  {
    if n > 0 { PositionsKept(v, w, file, n - 1); }
  }

  /** The discovery loop of `snapshot_pattern_sets`: entries that need no reading, and the files. */
  method Separate(host: Host, v: seq<ValidationEntry>) returns (entries: seq<InputEntry>, files: seq<FileInput>)
    ensures entries == At(host, v, Positions(v, false, |v|)) && files == FilesAt(v, Positions(v, true, |v|))
  {
    entries, files := [], [];
    for n := 0 to |v|
      invariant entries == At(host, v, Positions(v, false, n)) && files == FilesAt(v, Positions(v, true, n))
    {
      match v[n].kind {
        case FileKind(_) => files := files + [FileInput(n, v[n].path, v[n].metadata)];
        case DirectoryKind => entries := entries + [Directory(v[n].path)];
        case SymlinkKind(target) => entries := entries + [Symlink(v[n].path, target)];
      }
    }
  }

  /** The metadata that `w` gives to the files is what hashing found. */
  ghost predicate Assigned(w: seq<ValidationEntry>, positions: seq<nat>, hashed: seq<HashedFile>, n: nat) {
    && |hashed| == |positions| && n <= |hashed|
    && (forall t :: 0 <= t < |positions| ==> positions[t] < |w|)
    && (forall t :: 0 <= t < n ==> w[positions[t]].metadata == hashed[t].key)
  }

  lemma EntriesKept(host: Host, w: seq<ValidationEntry>, x: seq<ValidationEntry>, positions: seq<nat>, n: nat)
    requires n < |positions| && |w| == |x| && (forall t :: 0 <= t < |positions| ==> positions[t] < |w|)
    requires forall t :: 0 <= t < n ==> w[positions[t]] == x[positions[t]]
    ensures At(host, x, positions[..n + 1]) == At(host, w, positions[..n]) + [EntryOf(host, x[positions[n]])]
  {
  }

  /** The loop that writes each hash back into its validation entry and adds the file entry. */
  method Assign(host: Host, obs: Observations, v: seq<ValidationEntry>, files: seq<FileInput>, hashed: seq<HashedFile>)
    returns (w: seq<ValidationEntry>, added: seq<InputEntry>)
    requires files == FilesAt(v, Positions(v, true, |v|)) && |hashed| == |files| && OwnDigests(host, obs, files, hashed)
    ensures Remeasured(v, w) && Assigned(w, Positions(v, true, |v|), hashed, |hashed|)
    ensures added == At(host, w, Positions(v, true, |v|))
  {
    ghost var positions := Positions(v, true, |v|);
    w, added := v, [];
    for n := 0 to |files|
      invariant Remeasured(v, w) && Assigned(w, positions, hashed, n)
      invariant added == At(host, w, positions[..n])
    {
      var k := files[n].index;
      ghost var before := w;
      w := w[k := w[k].(metadata := hashed[n].key)];
      added := added + [File(w[k].path, hashed[n].content, hashed[n].executable)];
      EntriesKept(host, before, w, positions, n);
    }
    assert positions[..|files|] == positions;
  }

  lemma HashedPathsDiffer(host: Host, v: seq<ValidationEntry>)
    requires UniquePaths(v)
    ensures DistinctPaths(Hashed(host, v))
  {
  }

  /** Sorting the separately built entries gives exactly what full hashing of `w` means. */
  lemma AssembledIsFullHash(host: Host, v: seq<ValidationEntry>, w: seq<ValidationEntry>)
    requires Remeasured(v, w) && UniquePaths(v)
    ensures (forall t :: 0 <= t < |Positions(v, true, |v|)| ==> Positions(v, true, |v|)[t] < |w|)
    ensures InOrder(At(host, v, Positions(v, false, |v|)) + At(host, w, Positions(v, true, |v|))) == FullHash(host, w)
  {
    PositionsKept(v, w, true, |v|);
    PositionsKept(v, w, false, |v|);
    PositionsPartition(host, w, |w|);
    assert w[..|w|] == w;
    assert At(host, v, Positions(v, false, |v|)) == At(host, w, Positions(w, false, |w|));
    var a := Hashed(host, w);
    var b := At(host, v, Positions(v, false, |v|)) + At(host, w, Positions(v, true, |v|));
    HashedPathsDiffer(host, w);
    EntryOrderIsTotal();
    SortIsSorted(EntryLe, b);
    OrderIsUnique(a, InOrder(b));
  }

  /** The metadata a full hash leaves behind: unchanged, or a key that the file's own path showed. */
  ghost predicate Fresh(obs: Observations, v: seq<ValidationEntry>, w: seq<ValidationEntry>) {
    && Remeasured(v, w)
    && forall i :: 0 <= i < |v| ==> w[i] == v[i] || obs.shows(v[i].path, w[i].metadata)
  }

  lemma {:induction false} FileIsListed(v: seq<ValidationEntry>, n: nat, i: nat)
    requires i < n <= |v| && v[i].kind.FileKind?
    ensures i in Positions(v, true, n)
  {
    if i < n - 1 { FileIsListed(v, n - 1, i); }
  }

  lemma AssignedIsFresh(host: Host, obs: Observations, v: seq<ValidationEntry>, w: seq<ValidationEntry>, hashed: seq<HashedFile>)
    requires Remeasured(v, w) && Assigned(w, Positions(v, true, |v|), hashed, |hashed|)
    requires OwnDigests(host, obs, FilesAt(v, Positions(v, true, |v|)), hashed)
    ensures Fresh(obs, v, w)
  {
    forall i | 0 <= i < |v| ensures w[i] == v[i] || obs.shows(v[i].path, w[i].metadata) {
      if v[i].kind.FileKind? {
        FileIsListed(v, |v|, i);
        var t :| 0 <= t < |Positions(v, true, |v|)| && Positions(v, true, |v|)[t] == i;
        assert w[Positions(v, true, |v|)[t]].metadata == hashed[t].key;
        assert obs.shows(FilesAt(v, Positions(v, true, |v|))[t].path, hashed[t].key);
      }
    }
  }

  /** The files among the entries. */
  function FilesOf(v: seq<ValidationEntry>): seq<FileInput> { FilesAt(v, Positions(v, true, |v|)) }

  /** The cold path: read, de-duplicate, assemble, sort; `None` exactly when a read fails. */
  method HashEverything(host: Host, obs: Observations,
      v: seq<ValidationEntry>) returns (r: Option<(seq<ValidationEntry>, seq<InputEntry>)>)
    requires Truthful(obs) && UniquePaths(v)
    ensures r.None? <==> ReadFails(obs, FilesOf(v))
    ensures r.Some? ==> Fresh(obs, v, r.value.0) && r.value.1 == FullHash(host, r.value.0)
  {
    var plain, files := Separate(host, v);
    var hashed := HashFiles(host, obs, files);
    if hashed.None? {
      return None;
    }
    var w, added := Assign(host, obs, v, files, hashed.value);
    AssignedIsFresh(host, obs, v, w, hashed.value);
    AssembledIsFullHash(host, v, w);
    return Some((w, InOrder(plain + added)));
  }
}
