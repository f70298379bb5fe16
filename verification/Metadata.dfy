/** The metadata pre-image under which a hashed snapshot is remembered. */
module Metadata {
  import opened Orders
  import opened Paths
  import opened Bytes
  import opened InputTree

  const MAX_U64 := TWO64 - 1

  datatype FileIdentity =
    | Unix(device: nat, inode: nat)
    | Windows(volume: nat, index: nat)
    | PathIdentity(path: Text)

  /** The fingerprint of one file system entry; `persistent` when the host vouches for identity and change time. */
  datatype EntryKey = EntryKey(identity: FileIdentity, length: nat, modified: (bool, nat, nat), change: (int, int), persistent: bool)

  datatype ValidationKind =
    | DirectoryKind
    | FileKind(executable: bool)
    | SymlinkKind(target: Text)

  datatype ValidationEntry = ValidationEntry(path: Text, kind: ValidationKind, metadata: EntryKey)

  /** The machine widths of the fields. */
  predicate KeyFits(k: EntryKey) {
    && (match k.identity
        case Unix(a, b) => a < TWO64 && b < TWO64
        case Windows(a, b) => a < TWO64 && b < TWO64
        case PathIdentity(p) => |p| < TWO64)
    && k.length < TWO64 && k.modified.1 < TWO64 && k.modified.2 < TWO32
    && -(TWO64 / 2) <= k.change.0 < TWO64 / 2 && -(TWO64 / 2) <= k.change.1 < TWO64 / 2
  }

  predicate ValidationFits(e: ValidationEntry) {
    |e.path| < TWO64 && KeyFits(e.metadata) && (e.kind.SymlinkKind? ==> |e.kind.target| < TWO64)
  }

  /** Two's complement, as `i64::to_be_bytes` writes it. */
  function Signed(v: int): nat
    requires -(TWO64 / 2) <= v
  {
    if v < 0 then v + TWO64 else v
  }

  function I64(v: int): (b: Text)
    ensures |b| == 8
  {
    U64(if -(TWO64 / 2) <= v then Signed(v) else 0)
  }

  lemma CancelI64(a: int, b: int, r: Text, s: Text)
    requires -(TWO64 / 2) <= a < TWO64 / 2 && -(TWO64 / 2) <= b < TWO64 / 2 && I64(a) + r == I64(b) + s
    ensures a == b && r == s
  {
    CancelU64(Signed(a), Signed(b), r, s);
  }

  function IdentityTag(i: FileIdentity): Byte {
    match i
    case Unix(_, _) => 1
    case Windows(_, _) => 2
    case PathIdentity(_) => 3
  }

  function IdentityFields(i: FileIdentity): Text {
    match i
    case Unix(device, inode) => U64(device) + U64(inode)
    case Windows(volume, index) => U64(volume) + U64(index)
    case PathIdentity(path) => Framed(path)
  }

  function TimeBytes(k: EntryKey): Text {
    [Flag(k.modified.0)] + (U64(k.modified.1) + (U32(k.modified.2) + (I64(k.change.0) + I64(k.change.1))))
  }

  /** `EntryKey::update_fingerprint`. */
  function Fingerprint(k: EntryKey): Text {
    [IdentityTag(k.identity)] + (IdentityFields(k.identity) + (U64(k.length) + TimeBytes(k)))
  }

  lemma CancelTimes(a: EntryKey, b: EntryKey, r: Text, s: Text)
    requires KeyFits(a) && KeyFits(b) && TimeBytes(a) + r == TimeBytes(b) + s
    ensures a.modified == b.modified && a.change == b.change && r == s
  {
    CancelFixed(TimeBytes(a), TimeBytes(b), r, s);
    var a1, b1 := I64(a.change.0) + I64(a.change.1), I64(b.change.0) + I64(b.change.1);
    var a2, b2 := U32(a.modified.2) + a1, U32(b.modified.2) + b1;
    CancelFixed([Flag(a.modified.0)], [Flag(b.modified.0)], U64(a.modified.1) + a2, U64(b.modified.1) + b2);
    assert [Flag(a.modified.0)][0] == [Flag(b.modified.0)][0];
    CancelU64(a.modified.1, b.modified.1, a2, b2);
    CancelU32(a.modified.2, b.modified.2, a1, b1);
    CancelChange(a, b);
  }

  lemma CancelChange(a: EntryKey, b: EntryKey)
    requires KeyFits(a) && KeyFits(b) && I64(a.change.0) + I64(a.change.1) == I64(b.change.0) + I64(b.change.1)
    ensures a.change == b.change
  {
    CancelI64(a.change.0, b.change.0, I64(a.change.1), I64(b.change.1));
    assert I64(a.change.1) + [] == I64(b.change.1) + [];
    CancelI64(a.change.1, b.change.1, [], []);
  }

  lemma CancelPair(a: nat, b: nat, c: nat, d: nat, r: Text, s: Text)
    requires a < TWO64 && b < TWO64 && c < TWO64 && d < TWO64 && (U64(a) + U64(b)) + r == (U64(c) + U64(d)) + s
    ensures a == c && b == d && r == s
  {
    Regroup(U64(a), U64(b), r);
    Regroup(U64(c), U64(d), s);
    CancelU64(a, c, U64(b) + r, U64(d) + s);
    CancelU64(b, d, r, s);
  }

  lemma CancelIdentityFields(a: EntryKey, b: EntryKey, r: Text, s: Text)
    requires KeyFits(a) && KeyFits(b) && IdentityTag(a.identity) == IdentityTag(b.identity)
    requires IdentityFields(a.identity) + r == IdentityFields(b.identity) + s
    ensures a.identity == b.identity && r == s
  {
    match a.identity {
      case Unix(x, y) => CancelPair(x, y, b.identity.device, b.identity.inode, r, s);
      case Windows(x, y) => CancelPair(x, y, b.identity.volume, b.identity.index, r, s);
      case PathIdentity(p) => CancelFramed(p, b.identity.path, r, s);
    }
  }

  lemma CancelFingerprint(a: EntryKey, b: EntryKey, r: Text, s: Text)
    requires KeyFits(a) && KeyFits(b) && a.persistent == b.persistent && Fingerprint(a) + r == Fingerprint(b) + s
    ensures a == b && r == s
  {
    var x, y := U64(a.length) + TimeBytes(a), U64(b.length) + TimeBytes(b);
    Regroup([IdentityTag(a.identity)], IdentityFields(a.identity) + x, r);
    Regroup([IdentityTag(b.identity)], IdentityFields(b.identity) + y, s);
    CancelFixed([IdentityTag(a.identity)], [IdentityTag(b.identity)], (IdentityFields(a.identity) + x) + r, (IdentityFields(b.identity) + y) + s);
    assert [IdentityTag(a.identity)][0] == [IdentityTag(b.identity)][0];
    Regroup(IdentityFields(a.identity), x, r);
    Regroup(IdentityFields(b.identity), y, s);
    CancelIdentityFields(a, b, x + r, y + s);
    Regroup(U64(a.length), TimeBytes(a), r);
    Regroup(U64(b.length), TimeBytes(b), s);
    CancelU64(a.length, b.length, TimeBytes(a) + r, TimeBytes(b) + s);
    CancelTimes(a, b, r, s);
  }

  function KindBytes(kind: ValidationKind): Text {
    match kind
    case DirectoryKind => Framed([1])
    case FileKind(executable) => Framed([2, Flag(executable)])
    case SymlinkKind(target) => Framed([3]) + Framed(target)
  }

  function ValidationBytes(e: ValidationEntry): Text { Framed(e.path) + (KindBytes(e.kind) + Fingerprint(e.metadata)) }

  /** The first framed value of a kind. */
  function KindHead(kind: ValidationKind): Text {
    match kind
    case DirectoryKind => [1]
    case FileKind(executable) => [2, Flag(executable)]
    case SymlinkKind(_) => [3]
  }

  function KindTail(kind: ValidationKind): Text {
    if kind.SymlinkKind? then Framed(kind.target) else []
  }

  lemma KindSplits(kind: ValidationKind, r: Text)
    ensures KindBytes(kind) + r == Framed(KindHead(kind)) + (KindTail(kind) + r)
  {
  }

  lemma CancelKind(a: ValidationEntry, b: ValidationEntry, r: Text, s: Text)
    requires ValidationFits(a) && ValidationFits(b) && KindBytes(a.kind) + r == KindBytes(b.kind) + s
    ensures a.kind == b.kind && r == s
  {
    KindSplits(a.kind, r);
    KindSplits(b.kind, s);
    var x, y := KindHead(a.kind), KindHead(b.kind);
    CancelFramed(x, y, KindTail(a.kind) + r, KindTail(b.kind) + s);
    assert x[0] == y[0] && (|x| > 1 ==> x[1] == y[1]);
    if a.kind.SymlinkKind? {
      CancelFramed(a.kind.target, b.kind.target, r, s);
    } else {
      assert [] + r == r && [] + s == s;
    }
  }

  /** A fitting entry whose identity may be reused by another process. */
  predicate Rememberable(e: ValidationEntry) { ValidationFits(e) && e.metadata.persistent }

  lemma CancelValidation(a: ValidationEntry, b: ValidationEntry, r: Text, s: Text)
    requires Rememberable(a) && Rememberable(b) && ValidationBytes(a) + r == ValidationBytes(b) + s
    ensures a == b && r == s
  {
    var x, y := KindBytes(a.kind) + Fingerprint(a.metadata), KindBytes(b.kind) + Fingerprint(b.metadata);
    Regroup(Framed(a.path), x, r);
    Regroup(Framed(b.path), y, s);
    CancelFramed(a.path, b.path, x + r, y + s);
    Regroup(KindBytes(a.kind), Fingerprint(a.metadata), r);
    Regroup(KindBytes(b.kind), Fingerprint(b.metadata), s);
    CancelKind(a, b, Fingerprint(a.metadata) + r, Fingerprint(b.metadata) + s);
    CancelFingerprint(a.metadata, b.metadata, r, s);
  }

  lemma ValidationsAreSelfDelimiting()
    ensures SelfDelimiting(ValidationBytes, Rememberable)
  {
    forall a, b, r, s | Rememberable(a) && Rememberable(b) && ValidationBytes(a) + r == ValidationBytes(b) + s ensures a == b && r == s {
      CancelValidation(a, b, r, s);
    }
  }

  /** The bytes of `octa.input-metadata.v1`. */
  const INPUT_METADATA_DOMAIN: Text :=
    [111, 99, 116, 97, 46, 105, 110, 112, 117, 116, 45, 109, 101, 116, 97, 100, 97, 116, 97, 46, 118, 49]

  function ValidationsBytes(v: seq<ValidationEntry>): Text { ConcatMap(ValidationBytes, v) }

  /** Domain, scope and entry count, each behind its length. */
  function Heading(scope: Text, n: nat): Text { Framed(INPUT_METADATA_DOMAIN) + (Framed(scope) + Framed(U64(n))) }

  function Preimage(scope: Text, v: seq<ValidationEntry>): Text { Heading(scope, |v|) + ValidationsBytes(v) }

  ghost predicate AllRememberable(v: seq<ValidationEntry>) {
    |v| < TWO64 && forall i :: 0 <= i < |v| ==> Rememberable(v[i])
  }

  lemma CancelHeading(s: Text, t: Text, n: nat, m: nat, x: Text, y: Text)
    requires |s| < TWO64 && |t| < TWO64 && n < TWO64 && m < TWO64 && Heading(s, n) + x == Heading(t, m) + y
    ensures s == t && n == m && x == y
  {
    var d := Framed(INPUT_METADATA_DOMAIN);
    Regroup(d, Framed(s) + Framed(U64(n)), x);
    Regroup(d, Framed(t) + Framed(U64(m)), y);
    CancelFixed(d, d, (Framed(s) + Framed(U64(n))) + x, (Framed(t) + Framed(U64(m))) + y);
    Regroup(Framed(s), Framed(U64(n)), x);
    Regroup(Framed(t), Framed(U64(m)), y);
    CancelFramed(s, t, Framed(U64(n)) + x, Framed(U64(m)) + y);
    CancelFramed(U64(n), U64(m), x, y);
    CancelU64(n, m, [], []);
  }

  /** Equal metadata pre-images mean equal scope and equal entries, field by field. */
  lemma PreimageIsInjective(s: Text, v: seq<ValidationEntry>, t: Text, w: seq<ValidationEntry>)
    requires |s| < TWO64 && |t| < TWO64 && AllRememberable(v) && AllRememberable(w)
    ensures Preimage(s, v) == Preimage(t, w) <==> s == t && v == w
  {
    if Preimage(s, v) == Preimage(t, w) {
      CancelHeading(s, t, |v|, |w|, ValidationsBytes(v), ValidationsBytes(w));
      ValidationsAreSelfDelimiting();
      assert ValidationsBytes(v) + [] == ValidationsBytes(w) + [];
      CancelList(ValidationBytes, Rememberable, v, w, [], []);
    }
  }

  /** The bytes of `octa.input-memo-scope.v1`. */
  const MEMO_SCOPE_DOMAIN: Text :=
    [111, 99, 116, 97, 46, 105, 110, 112, 117, 116, 45, 109, 101, 109, 111, 45, 115, 99, 111, 112, 101, 46, 118, 49]

  function Scope(filesystemType: Text, filesystemId: Text, boot: Text): Text {
    Text32(MEMO_SCOPE_DOMAIN) + (Text32(filesystemType) + (Text32(filesystemId) + Text32(boot)))
  }

  /** `memo_scope`: the loop over the four values. */
  method MemoScope(filesystemType: Text, filesystemId: Text, boot: Text) returns (scope: Text)
    ensures scope == Scope(filesystemType, filesystemId, boot)
  {
    var values := [MEMO_SCOPE_DOMAIN, filesystemType, filesystemId, boot];
    scope := [];
    for i := 0 to 4
      invariant scope == ConcatMap(Text32, values[..i])
    {
      assert values[..i + 1] == values[..i] + [values[i]];
      ConcatOne(Text32, values[..i], values[i]);
      scope := scope + U32(|values[i]|) + values[i];
      Regroup(ConcatMap(Text32, values[..i]), U32(|values[i]|), values[i]);
    }
    FourValues(filesystemType, filesystemId, boot);
    assert values[..4] == values;
  }

  lemma FourValues(b: Text, c: Text, d: Text)
    ensures ConcatMap(Text32, [MEMO_SCOPE_DOMAIN, b, c, d]) == Scope(b, c, d)
  {
    var a := MEMO_SCOPE_DOMAIN;
    assert [a, b, c, d][1..] == [b, c, d] && [b, c, d][1..] == [c, d] && [c, d][1..] == [d] && [d][1..] == [];
    assert ConcatMap(Text32, [d]) == Text32(d) + [] == Text32(d);
    assert ConcatMap(Text32, [c, d]) == Text32(c) + Text32(d);
    assert ConcatMap(Text32, [b, c, d]) == Text32(b) + ConcatMap(Text32, [c, d]);
    assert ConcatMap(Text32, [a, b, c, d]) == Text32(a) + ConcatMap(Text32, [b, c, d]);
  }

  /** Different file systems, file system types or boots never share a scope. */
  lemma ScopeIsInjective(a: Text, b: Text, c: Text, d: Text, e: Text, f: Text)
    requires |a| < TWO32 && |b| < TWO32 && |c| < TWO32 && |d| < TWO32 && |e| < TWO32 && |f| < TWO32
    ensures Scope(a, b, c) == Scope(d, e, f) <==> a == d && b == e && c == f
  {
    if Scope(a, b, c) == Scope(d, e, f) {
      CancelFixed(Text32(MEMO_SCOPE_DOMAIN), Text32(MEMO_SCOPE_DOMAIN), Text32(a) + (Text32(b) + Text32(c)), Text32(d) + (Text32(e) + Text32(f)));
      CancelText32(a, d, Text32(b) + Text32(c), Text32(e) + Text32(f));
      CancelText32(b, e, Text32(c), Text32(f));
      assert Text32(c) + [] == Text32(f) + [];
      CancelText32(c, f, [], []);
    }
  }

  function Saturating(a: nat, b: nat): nat { if a + b <= MAX_U64 then a + b else MAX_U64 }

  /** The counter after `n` bytes. */
  function Clamp(n: nat): nat { Saturating(n, 0) }

  /** `update_metadata`. */
  method UpdateMetadata(stream: Text, bytes: nat, value: Text) returns (s: Text, b: nat)
    requires bytes == Clamp(|stream|)
    ensures s == stream + Framed(value) && b == Clamp(|s|)
  {
    s := stream + U64(|value|) + value;
    b := Saturating(Saturating(bytes, 8), |value|);
    Regroup(stream, U64(|value|), value);
  }

  method UpdateKind(stream: Text, bytes: nat, kind: ValidationKind) returns (s: Text, b: nat)
    requires bytes == Clamp(|stream|)
    ensures s == stream + KindBytes(kind) && b == Clamp(|s|)
  {
    match kind {
      case DirectoryKind => s, b := UpdateMetadata(stream, bytes, [1]);
      case FileKind(executable) => s, b := UpdateMetadata(stream, bytes, [2, Flag(executable)]);
      case SymlinkKind(target) =>
        s, b := UpdateMetadata(stream, bytes, [3]);
        s, b := UpdateMetadata(s, b, target);
        Regroup(stream, Framed([3]), Framed(target));
    }
  }

  /** One turn of the loop of `input_metadata_digest`: `None` for a transient identity or a counter overflow. */
  method UpdateEntry(stream: Text, bytes: nat, e: ValidationEntry) returns (r: Option<(Text, nat)>)
    requires bytes == Clamp(|stream|)
    ensures r.Some? <==> e.metadata.persistent && |stream + ValidationBytes(e)| <= MAX_U64
    ensures r.Some? ==> r.value == (stream + ValidationBytes(e), |stream + ValidationBytes(e)|)
  {
    var s, b := UpdateMetadata(stream, bytes, e.path);
    s, b := UpdateKind(s, b, e.kind);
    var f := Fingerprint(e.metadata);
    Regroup(stream + Framed(e.path), KindBytes(e.kind), f);
    Regroup(stream, Framed(e.path), KindBytes(e.kind) + f);
    if !e.metadata.persistent || b + |f| > MAX_U64 {
      return None;
    }
    return Some((s + f, b + |f|));
  }

  lemma NextValidation(v: seq<ValidationEntry>, i: nat)
    requires i < |v|
    ensures ValidationsBytes(v[..i + 1]) == ValidationsBytes(v[..i]) + ValidationBytes(v[i])
    ensures |ValidationsBytes(v[..i + 1])| <= |ValidationsBytes(v)|
  {
    assert v[..i + 1] == v[..i] + [v[i]];
    ConcatOne(ValidationBytes, v[..i], v[i]);
    PrefixIsShorter(v, i + 1);
  }

  lemma {:induction false} PrefixIsShorter(v: seq<ValidationEntry>, i: nat)
    requires i <= |v|
    ensures |ValidationsBytes(v[..i])| <= |ValidationsBytes(v)|
  {
    if i > 0 {
      assert v[..i][1..] == v[1..][..i - 1];
      PrefixIsShorter(v[1..], i - 1);
    }
  }

  /** A metadata digest exists for these entries. */
  ghost predicate HasDigest(v: seq<ValidationEntry>, scope: Option<Text>) {
    && scope.Some?
    && (forall i :: 0 <= i < |v| ==> v[i].metadata.persistent)
    && (v == [] || |Preimage(scope.value, v)| <= MAX_U64)
  }

  method UpdateHeading(scope: Text, n: nat) returns (s: Text, b: nat)
    ensures s == Heading(scope, n) && b == Clamp(|s|)
  {
    s, b := UpdateMetadata([], 0, INPUT_METADATA_DOMAIN);
    s, b := UpdateMetadata(s, b, scope);
    s, b := UpdateMetadata(s, b, U64(n));
    assert [] + Framed(INPUT_METADATA_DOMAIN) == Framed(INPUT_METADATA_DOMAIN);
    Regroup(Framed(INPUT_METADATA_DOMAIN), Framed(scope), Framed(U64(n)));
  }

  method UpdateEntries(heading: Text, bytes: nat, v: seq<ValidationEntry>) returns (r: Option<(Text, nat)>)
    requires bytes == Clamp(|heading|)
    ensures r.Some? <==> (forall i :: 0 <= i < |v| ==> v[i].metadata.persistent) && (v == [] || |heading + ValidationsBytes(v)| <= MAX_U64)
    ensures r.Some? ==> r.value == (heading + ValidationsBytes(v), Clamp(|heading + ValidationsBytes(v)|))
  {
    var s, b := heading, bytes;
    assert heading + [] == heading;
    for i := 0 to |v|
      invariant FedUpTo(heading, v, i, s) && b == Clamp(|s|)
    {
      NextFed(heading, v, i, s);
      var step := UpdateEntry(s, b, v[i]);
      if step.None? {
        return None;
      }
      s, b := step.value.0, step.value.1;
    }
    assert v[..|v|] == v;
    return Some((s, b));
  }

  /** The first `i` entries have been hashed without a reason to give up. */
  ghost predicate FedUpTo(heading: Text, v: seq<ValidationEntry>, i: nat, s: Text)
    requires i <= |v|
  {
    && s == heading + ValidationsBytes(v[..i]) && (i > 0 ==> |s| <= MAX_U64)
    && forall k :: 0 <= k < i ==> v[k].metadata.persistent
  }

  lemma NextFed(heading: Text, v: seq<ValidationEntry>, i: nat, s: Text)
    requires i < |v| && FedUpTo(heading, v, i, s)
    ensures v[i].metadata.persistent && |s + ValidationBytes(v[i])| <= MAX_U64 ==> FedUpTo(heading, v, i + 1, s + ValidationBytes(v[i]))
    ensures |s + ValidationBytes(v[i])| <= |heading + ValidationsBytes(v)|
  {
    NextValidation(v, i);
    Regroup(heading, ValidationsBytes(v[..i]), ValidationBytes(v[i]));
  }

  /** `input_metadata_digest` up to the final hash. */
  method MetadataInput(v: seq<ValidationEntry>, scope: Option<Text>) returns (r: Option<(Text, nat)>)
    ensures r.Some? <==> HasDigest(v, scope)
    ensures r.Some? ==> r.value == (Preimage(scope.value, v), Clamp(|Preimage(scope.value, v)|))
  {
    if scope.None? {
      return None;
    }
    var s, b := UpdateHeading(scope.value, |v|);
    r := UpdateEntries(s, b, v);
  }
}
