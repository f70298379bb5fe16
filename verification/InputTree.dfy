/** The persisted `octa.input-tree.v1` identity of a set of cache inputs. */
module InputTree {
  import opened Orders
  import opened Bytes

  /** The bytes of `octa.input-tree.v1`. */
  const INPUT_TREE_DOMAIN: Text := [111, 99, 116, 97, 46, 105, 110, 112, 117, 116, 45, 116, 114, 101, 101, 46, 118, 49]

  datatype InputEntry =
    | Directory(path: Text)
    | File(path: Text, content: Digest, executable: bool)
    | Symlink(path: Text, target: Text)

  /** Lengths within 32 bits, as portable paths and symlink targets are. */
  predicate EntryFits(e: InputEntry) {
    && |e.path| < TWO32
    && (e.File? ==> ValidDigest(e.content))
    && (e.Symlink? ==> |e.target| < TWO32)
  }

  function EntryTag(e: InputEntry): Byte {
    match e
    case Directory(_) => 1
    case File(_, _, _) => 2
    case Symlink(_, _) => 3
  }

  function Flag(b: bool): Byte { if b then 1 else 0 }

  /** What follows the path of an entry. */
  function EntryIdentity(e: InputEntry): Text {
    match e
    case Directory(_) => []
    case File(_, content, executable) => [Flag(executable)] + DigestBytes(content)
    case Symlink(_, target) => Text32(target)
  }

  function EntryBytes(e: InputEntry): Text { [EntryTag(e)] + (Text32(e.path) + EntryIdentity(e)) }

  function TreeStream(entries: seq<InputEntry>): Text {
    Text32(INPUT_TREE_DOMAIN) + (U64(|entries|) + EntriesBytes(entries))
  }

  function EntriesBytes(entries: seq<InputEntry>): Text { ConcatMap(EntryBytes, entries) }

  lemma NextEntry(entries: seq<InputEntry>, i: nat)
    requires i < |entries|
    ensures EntriesBytes(entries[..i + 1]) == EntriesBytes(entries[..i]) + EntryBytes(entries[i])
  {
    assert entries[..i + 1] == entries[..i] + [entries[i]];
    ConcatOne(EntryBytes, entries[..i], entries[i]);
  }

  /** The three writes of a file entry after its path: flag and algorithm, size, digest bytes. */
  lemma FileIdentityPieces(s: Text, e: InputEntry)
    requires e.File?
    ensures s + [Flag(e.executable), AlgorithmTag(e.content.algorithm)] + U64(e.content.size) + e.content.hash == s + EntryIdentity(e)
  {
  }

  lemma EntryPieces(s: Text, e: InputEntry)
    ensures s + [EntryTag(e)] + U32(|e.path|) + e.path + EntryIdentity(e) == s + EntryBytes(e)
  {
  }

  /** One turn of the loop of `input_root_digest`. */
  method WriteEntry(stream: Text, bytes: nat, e: InputEntry) returns (s: Text, b: nat)
    requires bytes == |stream|
    ensures s == stream + EntryBytes(e) && b == |s|
  {
    s := stream + [EntryTag(e)] + U32(|e.path|) + e.path;
    b := bytes + 1 + 4 + |e.path|;
    ghost var head := s;
    match e {
      case Directory(_) => assert head == head + [];
      case File(_, content, executable) =>
        s := s + [Flag(executable), AlgorithmTag(content.algorithm)] + U64(content.size) + content.hash;
        b := b + 2 + 8 + |content.hash|;
        FileIdentityPieces(head, e);
      case Symlink(_, target) =>
        s := s + U32(|target|) + target;
        b := b + 4 + |target|;
        assert s == head + EntryIdentity(e);
    }
    EntryPieces(stream, e);
  }

  method WriteEntries(stream: Text, bytes: nat, entries: seq<InputEntry>) returns (s: Text, b: nat)
    requires bytes == |stream|
    ensures s == stream + EntriesBytes(entries) && b == |s|
  {
    s, b := stream, bytes;
    for i := 0 to |entries|
      invariant b == |s| && s == stream + EntriesBytes(entries[..i])
    {
      NextEntry(entries, i);
      Regroup(stream, EntriesBytes(entries[..i]), EntryBytes(entries[i]));
      s, b := WriteEntry(s, b, entries[i]);
    }
    assert entries[..|entries|] == entries;
  }

  /** `input_root_digest` up to the final hash: the hashed stream and the counted bytes. */
  method RootInput(entries: seq<InputEntry>) returns (stream: Text, bytes: nat)
    ensures stream == TreeStream(entries) && bytes == |stream|
  {
    stream := Text32(INPUT_TREE_DOMAIN) + U64(|entries|);
    bytes := 4 + |INPUT_TREE_DOMAIN| + 8;
    stream, bytes := WriteEntries(stream, bytes, entries);
    Regroup(Text32(INPUT_TREE_DOMAIN), U64(|entries|), EntriesBytes(entries));
  }

  lemma CancelFile(a: InputEntry, b: InputEntry, r: Text, s: Text)
    requires a.File? && b.File? && ValidDigest(a.content) && ValidDigest(b.content)
    requires EntryIdentity(a) + r == EntryIdentity(b) + s
    ensures a.content == b.content && a.executable == b.executable && r == s
  {
    var x, y := DigestBytes(a.content), DigestBytes(b.content);
    Regroup([Flag(a.executable)], x, r);
    Regroup([Flag(b.executable)], y, s);
    CancelFixed([Flag(a.executable)], [Flag(b.executable)], x + r, y + s);
    assert [Flag(a.executable)][0] == [Flag(b.executable)][0];
    CancelDigest(a.content, b.content, r, s);
  }

  lemma CancelIdentity(a: InputEntry, b: InputEntry, r: Text, s: Text)
    requires EntryFits(a) && EntryFits(b) && EntryTag(a) == EntryTag(b) && a.path == b.path
    requires EntryIdentity(a) + r == EntryIdentity(b) + s
    ensures a == b && r == s
  {
    match a {
      case Directory(_) => assert [] + r == r && [] + s == s;
      case File(_, _, _) => CancelFile(a, b, r, s);
      case Symlink(_, target) => CancelText32(target, b.target, r, s);
    }
  }

  lemma CancelEntry(a: InputEntry, b: InputEntry, r: Text, s: Text)
    requires EntryFits(a) && EntryFits(b) && EntryBytes(a) + r == EntryBytes(b) + s
    ensures a == b && r == s
  {
    var x, y := Text32(a.path) + EntryIdentity(a), Text32(b.path) + EntryIdentity(b);
    Regroup([EntryTag(a)], x, r);
    Regroup([EntryTag(b)], y, s);
    CancelFixed([EntryTag(a)], [EntryTag(b)], x + r, y + s);
    assert [EntryTag(a)][0] == [EntryTag(b)][0];
    CancelTail(a, b, r, s);
  }

  lemma CancelTail(a: InputEntry, b: InputEntry, r: Text, s: Text)
    requires EntryFits(a) && EntryFits(b) && EntryTag(a) == EntryTag(b)
    requires (Text32(a.path) + EntryIdentity(a)) + r == (Text32(b.path) + EntryIdentity(b)) + s
    ensures a == b && r == s
  {
    Regroup(Text32(a.path), EntryIdentity(a), r);
    Regroup(Text32(b.path), EntryIdentity(b), s);
    CancelText32(a.path, b.path, EntryIdentity(a) + r, EntryIdentity(b) + s);
    CancelIdentity(a, b, r, s);
  }

  lemma EntriesAreSelfDelimiting()
    ensures SelfDelimiting(EntryBytes, EntryFits)
  {
    forall a, b, r, s | EntryFits(a) && EntryFits(b) && EntryBytes(a) + r == EntryBytes(b) + s ensures a == b && r == s {
      CancelEntry(a, b, r, s);
    }
  }

  ghost predicate TreeFits(entries: seq<InputEntry>) {
    |entries| < TWO64 && forall i :: 0 <= i < |entries| ==> EntryFits(entries[i])
  }

  /** Different entry sequences never share a pre-image. */
  lemma TreeEncodingIsInjective(a: seq<InputEntry>, b: seq<InputEntry>)
    requires TreeFits(a) && TreeFits(b)
    ensures TreeStream(a) == TreeStream(b) <==> a == b
  {
    if TreeStream(a) == TreeStream(b) {
      var x, y := EntriesBytes(a), EntriesBytes(b);
      CancelFixed(Text32(INPUT_TREE_DOMAIN), Text32(INPUT_TREE_DOMAIN), U64(|a|) + x, U64(|b|) + y);
      CancelU64(|a|, |b|, x, y);
      EntriesAreSelfDelimiting();
      assert x + [] == y + [];
      CancelList(EntryBytes, EntryFits, a, b, [], []);
    }
  }

  predicate EntryLe(a: InputEntry, b: InputEntry) { TextLe(a.path, b.path) }

  /** `entries.sort_by(|left, right| left.path().cmp(right.path()))`. */
  function InOrder(entries: seq<InputEntry>): seq<InputEntry> { Sort(EntryLe, entries) }

  ghost predicate DistinctPaths(entries: seq<InputEntry>) {
    forall i, k :: 0 <= i < k < |entries| ==> entries[i].path != entries[k].path
  }

  lemma EntryOrderIsTotal()
    ensures TotalPreorder(EntryLe)
  {
    TextOrderIsTotal();
  }

  lemma DistinctPathsNoTies(entries: seq<InputEntry>)
    requires DistinctPaths(entries)
    ensures NoTies(EntryLe, entries)
  {
    TextOrderIsTotal();
  }

  /** Distinct paths leave one possible path-sorted arrangement. */
  lemma OrderIsUnique(a: seq<InputEntry>, b: seq<InputEntry>)
    requires multiset(a) == multiset(b) && DistinctPaths(a) && SortedBy(EntryLe, b)
    ensures InOrder(a) == b
  {
    EntryOrderIsTotal();
    SortIsSorted(EntryLe, a);
    DistinctPathsNoTies(a);
    var s := InOrder(a);
    assert forall x :: (x in s <==> x in multiset(s)) && (x in a <==> x in multiset(a));
    SortedUnique(EntryLe, s, b);
  }

  lemma FitsAnyOrder(a: seq<InputEntry>)
    requires TreeFits(a)
    ensures TreeFits(InOrder(a))
  {
    var s := InOrder(a);
    assert |multiset(s)| == |s| && |multiset(a)| == |a|;
    forall i | 0 <= i < |s| ensures EntryFits(s[i]) {
      assert s[i] in multiset(a);
    }
  }

  /** Two discoveries, in whatever order, have equal pre-images exactly when they describe the same tree. */
  lemma PreimageIdentifiesTree(a: seq<InputEntry>, b: seq<InputEntry>)
    requires TreeFits(a) && TreeFits(b) && DistinctPaths(a)
    ensures TreeStream(InOrder(a)) == TreeStream(InOrder(b)) <==> multiset(a) == multiset(b)
  {
    FitsAnyOrder(a);
    FitsAnyOrder(b);
    TreeEncodingIsInjective(InOrder(a), InOrder(b));
    if multiset(a) == multiset(b) {
      EntryOrderIsTotal();
      SortIsSorted(EntryLe, b);
      OrderIsUnique(a, InOrder(b));
    } else {
      assert multiset(InOrder(a)) != multiset(InOrder(b));
    }
  }
}
