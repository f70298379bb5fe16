/** The canonical action encoding `octa.action.v1` (octa-cache-protocol `action.rs`). */
module ActionKey {
  import opened Orders
  import opened Paths
  import opened Bytes

  const ACTION_KEY_FORMAT_V1 := 1

  /** "octa.action.v1". */
  const ACTION_DOMAIN: Text := [111, 99, 116, 97, 46, 97, 99, 116, 105, 111, 110, 46, 118, 49]

  datatype Os = Linux | Windows | Macos
  datatype Architecture = Amd64 | Arm64

  datatype Runtime =
    | Native(os: Os, architecture: Architecture, environment: Digest)
    | Oci(os: Os, architecture: Architecture, image: Digest)

  datatype Plugin = Plugin(name: Text, version: Text, protocolVersion: nat, executable: Digest)

  datatype Duration = Duration(seconds: nat, nanoseconds: nat)

  datatype Descriptor = Descriptor(
    keyFormat: nat, taskDefinition: Digest, inputRoot: Digest, workingDirectory: Text, variables: Digest,
    environment: Digest, runtime: Runtime, plugins: seq<Plugin>, arguments: seq<Text>,
    timeout: Option<Duration>, salt: Option<Text>)

  // ---------------------------------------------------------------- validation

  /** What the Rust types already guarantee. */
  ghost predicate WellTyped(d: Descriptor) {
    && d.keyFormat < TWO16 && Valid(d.workingDirectory)
    && ValidDigest(d.taskDefinition) && ValidDigest(d.inputRoot) && ValidDigest(d.variables) && ValidDigest(d.environment)
    && ValidDigest(RuntimeDigest(d.runtime))
    && (forall i :: 0 <= i < |d.plugins| ==> d.plugins[i].protocolVersion < TWO16 && ValidDigest(d.plugins[i].executable))
    && (d.timeout.Some? ==> d.timeout.value.seconds < TWO64 && d.timeout.value.nanoseconds < 1_000_000_000)
  }

  function RuntimeDigest(r: Runtime): Digest { if r.Native? then r.environment else r.image }

  /** `validate_string`. */
  predicate ValidString(s: Text) { s != [] && |s| <= MAX_CACHE_STRING_BYTES && !HasControl(s) }

  /** `RuntimeIdentity::validate`. */
  predicate ValidRuntime(r: Runtime) {
    match r
    case Native(_, _, environment) => environment.algorithm == Blake3
    case Oci(os, _, image) => os != Macos && image.algorithm == Sha256
  }

  predicate ValidPlugin(p: Plugin) {
    ValidString(p.name) && ValidString(p.version) && p.protocolVersion != 0 && p.executable.algorithm == Sha256
  }

  /** The bounds and invariants of version one. */
  ghost predicate Validated(d: Descriptor) {
    && d.keyFormat == ACTION_KEY_FORMAT_V1
    && |d.plugins| <= MAX_CACHE_LIST_ITEMS && |d.arguments| <= MAX_CACHE_LIST_ITEMS
    && d.taskDefinition.algorithm == d.inputRoot.algorithm == d.variables.algorithm == d.environment.algorithm == Blake3
    && ValidRuntime(d.runtime)
    && (forall i :: 0 <= i < |d.plugins| ==> ValidPlugin(d.plugins[i]))
    && (forall i, k :: 0 <= i < k < |d.plugins| ==> d.plugins[i].name != d.plugins[k].name)
    && (forall i :: 0 <= i < |d.arguments| ==> |d.arguments[i]| <= MAX_CACHE_STRING_BYTES)
    && (d.timeout.Some? ==> d.timeout.value != Duration(0, 0))
    && (d.salt.Some? ==> ValidString(d.salt.value))
  }

  /** `ActionDescriptorV1::validate`: repeated plugin names are found with a growing set. */
  method Validate(d: Descriptor) returns (ok: bool)
    ensures ok <==> Validated(d)
  {
    if d.keyFormat != ACTION_KEY_FORMAT_V1 || |d.plugins| > MAX_CACHE_LIST_ITEMS || |d.arguments| > MAX_CACHE_LIST_ITEMS {
      return false;
    }
    if d.taskDefinition.algorithm != Blake3 || d.inputRoot.algorithm != Blake3
       || d.variables.algorithm != Blake3 || d.environment.algorithm != Blake3 || !ValidRuntime(d.runtime) {
      return false;
    }
    var names: set<Text> := {};
    for i := 0 to |d.plugins|
      invariant forall k :: 0 <= k < i ==> ValidPlugin(d.plugins[k]) && d.plugins[k].name in names
      invariant forall n :: n in names ==> exists k :: 0 <= k < i && d.plugins[k].name == n
      invariant forall k, l :: 0 <= k < l < i ==> d.plugins[k].name != d.plugins[l].name
    {
      if !ValidPlugin(d.plugins[i]) || d.plugins[i].name in names {
        return false;
      }
      names := names + {d.plugins[i].name};
    }
    for i := 0 to |d.arguments|
      invariant forall k :: 0 <= k < i ==> |d.arguments[k]| <= MAX_CACHE_STRING_BYTES
    {
      if |d.arguments[i]| > MAX_CACHE_STRING_BYTES {
        return false;
      }
    }
    ok := !(d.timeout.Some? && d.timeout.value == Duration(0, 0)) && !(d.salt.Some? && !ValidString(d.salt.value));
  }

  // ---------------------------------------------------------------- the encoding

  function OsTag(os: Os): Byte { match os case Linux => 1 case Windows => 2 case Macos => 3 }

  function ArchitectureTag(a: Architecture): Byte { match a case Amd64 => 1 case Arm64 => 2 }

  function RuntimeHead(r: Runtime): (h: Text)
    ensures |h| == 4
  {
    match r
    case Native(os, a, _) => [1, OsTag(os), ArchitectureTag(a), 20]
    case Oci(os, a, _) => [2, OsTag(os), ArchitectureTag(a), 21]
  }

  function RuntimeBytes(r: Runtime): Text { RuntimeHead(r) + DigestBytes(RuntimeDigest(r)) }

  predicate NameLe(a: Plugin, b: Plugin) { TextLe(a.name, b.name) }

  /** The set of plugins in its one canonical order. */
  function Canonical(plugins: seq<Plugin>): seq<Plugin> { Sort(NameLe, plugins) }

  function PluginBytes(p: Plugin): Text {
    [9] + (Text32(p.name) + ([10] + (Text32(p.version) + ([11] + (U16(p.protocolVersion) + ([12] + DigestBytes(p.executable)))))))
  }

  function PluginsBytes(plugins: seq<Plugin>): Text { ConcatMap(PluginBytes, plugins) }

  function ArgumentBytes(argument: Text): Text { [14] + Text32(argument) }

  function ArgumentsBytes(arguments: seq<Text>): Text { ConcatMap(ArgumentBytes, arguments) }

  function TimeoutBytes(t: Option<Duration>): Text {
    if t.None? then [15, 0] else [15, 1, 16] + (U64(t.value.seconds) + ([17] + U32(t.value.nanoseconds)))
  }

  function SaltBytes(s: Option<Text>): Text {
    if s.None? then [18, 0] else [18, 1, 19] + Text32(s.value)
  }

  /** The variable-length tail of the stream. */
  function ListsBytes(plugins: seq<Plugin>, d: Descriptor): Text {
    [8] + (U32(|plugins|) + (PluginsBytes(plugins) + ([13] + (U32(|d.arguments|) + (ArgumentsBytes(d.arguments)
      + (TimeoutBytes(d.timeout) + SaltBytes(d.salt)))))))
  }

  /** The pre-image of the action digest, with the plugins in the given order. */
  function Stream(plugins: seq<Plugin>, d: Descriptor): Text {
    Text32(ACTION_DOMAIN) + ([1] + (U16(d.keyFormat) + ([2] + (DigestBytes(d.taskDefinition) + ([3] + (DigestBytes(d.inputRoot)
      + ([4] + (Text32(d.workingDirectory) + ([5] + (DigestBytes(d.variables) + ([6] + (DigestBytes(d.environment)
      + ([7] + (RuntimeBytes(d.runtime) + ListsBytes(plugins, d)))))))))))))))
  }

  function Encode(d: Descriptor): Text { Stream(Canonical(d.plugins), d) }

  // ---------------------------------------------------------------- canonicity

  /** Equal up to the order of the plugins; everything else, argument order included, counts. */
  ghost predicate SameAction(d: Descriptor, e: Descriptor) {
    multiset(d.plugins) == multiset(e.plugins) && d.(plugins := []) == e.(plugins := [])
  }

  lemma NamesSort(plugins: seq<Plugin>)
    ensures SortedBy(NameLe, Canonical(plugins))
  {
    TextOrderIsTotal();
    assert TotalPreorder(NameLe) by {
      forall a: Plugin, b: Plugin, c: Plugin | NameLe(a, b) && NameLe(b, c) ensures NameLe(a, c) {
        assert TextLe(a.name, b.name) && TextLe(b.name, c.name);
      }
    }
    SortIsSorted(NameLe, plugins);
  }

  lemma DistinctNamesNoTies(plugins: seq<Plugin>)
    requires forall i, k :: 0 <= i < k < |plugins| ==> plugins[i].name != plugins[k].name
    ensures NoTies(NameLe, plugins)
  {
    forall x, y | x in plugins && y in plugins && NameLe(x, y) && NameLe(y, x) ensures x == y {
      TextOrderIsTotal();
      assert x.name == y.name;
      var i :| 0 <= i < |plugins| && plugins[i] == x;
      var k :| 0 <= k < |plugins| && plugins[k] == y;
    }
  }

  /** Registration order does not matter. */
  lemma PluginOrderIsNormalised(a: seq<Plugin>, b: seq<Plugin>)
    requires multiset(a) == multiset(b)
    requires forall i, k :: 0 <= i < k < |a| ==> a[i].name != a[k].name
    ensures Canonical(a) == Canonical(b)
  {
    NamesSort(a);
    NamesSort(b);
    DistinctNamesNoTies(a);
    var s := Canonical(a);
    assert forall x :: (x in s <==> x in multiset(s)) && (x in a <==> x in multiset(a));
    SortedUnique(NameLe, s, Canonical(b));
  }

  lemma PluginSplits(p: Plugin, r: Text)
    ensures PluginBytes(p) + r == [9] + (Text32(p.name) + ([10] + (Text32(p.version)
              + ([11] + (U16(p.protocolVersion) + ([12] + (DigestBytes(p.executable) + r)))))))
  {
  }

  lemma CancelPlugin(p: Plugin, q: Plugin, r: Text, s: Text)
    requires PluginFits(p) && PluginFits(q) && PluginBytes(p) + r == PluginBytes(q) + s
    ensures p == q && r == s
  {
    var p1 := [11] + (U16(p.protocolVersion) + ([12] + (DigestBytes(p.executable) + r)));
    var q1 := [11] + (U16(q.protocolVersion) + ([12] + (DigestBytes(q.executable) + s)));
    PluginSplits(p, r);
    PluginSplits(q, s);
    CancelFixed([9], [9], Text32(p.name) + ([10] + (Text32(p.version) + p1)), Text32(q.name) + ([10] + (Text32(q.version) + q1)));
    CancelText32(p.name, q.name, [10] + (Text32(p.version) + p1), [10] + (Text32(q.version) + q1));
    CancelFixed([10], [10], Text32(p.version) + p1, Text32(q.version) + q1);
    CancelText32(p.version, q.version, p1, q1);
    CancelPluginEnd(p, q, r, s);
  }

  lemma CancelPluginEnd(p: Plugin, q: Plugin, r: Text, s: Text)
    requires PluginFits(p) && PluginFits(q)
    requires [11] + (U16(p.protocolVersion) + ([12] + (DigestBytes(p.executable) + r)))
          == [11] + (U16(q.protocolVersion) + ([12] + (DigestBytes(q.executable) + s)))
    ensures p.protocolVersion == q.protocolVersion && p.executable == q.executable && r == s
  {
    var p1, q1 := [12] + (DigestBytes(p.executable) + r), [12] + (DigestBytes(q.executable) + s);
    CancelFixed([11], [11], U16(p.protocolVersion) + p1, U16(q.protocolVersion) + q1);
    CancelU16(p.protocolVersion, q.protocolVersion, p1, q1);
    CancelFixed([12], [12], DigestBytes(p.executable) + r, DigestBytes(q.executable) + s);
    CancelDigest(p.executable, q.executable, r, s);
  }

  /** Every length and integer of a plugin fits its field. */
  predicate PluginFits(p: Plugin) {
    |p.name| < TWO32 && |p.version| < TWO32 && p.protocolVersion < TWO16 && ValidDigest(p.executable)
  }

  predicate ArgumentFits(a: Text) { |a| < TWO32 }

  lemma PluginsDelimit()
    ensures SelfDelimiting(PluginBytes, PluginFits)
  {
    forall x, y, r, s | PluginFits(x) && PluginFits(y) && PluginBytes(x) + r == PluginBytes(y) + s ensures x == y && r == s {
      CancelPlugin(x, y, r, s);
    }
  }

  lemma ArgumentsDelimit()
    ensures SelfDelimiting(ArgumentBytes, ArgumentFits)
  {
    forall x, y, r, s | ArgumentFits(x) && ArgumentFits(y) && ArgumentBytes(x) + r == ArgumentBytes(y) + s ensures x == y && r == s {
      assert ArgumentBytes(x) + r == [14] + (Text32(x) + r) && ArgumentBytes(y) + s == [14] + (Text32(y) + s);
      CancelFixed([14], [14], Text32(x) + r, Text32(y) + s);
      CancelText32(x, y, r, s);
    }
  }

  lemma CancelTimeout(a: Option<Duration>, b: Option<Duration>, r: Text, s: Text)
    requires a.Some? ==> a.value.seconds < TWO64 && a.value.nanoseconds < TWO32
    requires b.Some? ==> b.value.seconds < TWO64 && b.value.nanoseconds < TWO32
    requires TimeoutBytes(a) + r == TimeoutBytes(b) + s
    ensures a == b && r == s
  {
    assert (TimeoutBytes(a) + r)[1] == (TimeoutBytes(b) + s)[1];
    if a.None? {
      CancelFixed([15, 0], [15, 0], r, s);
    } else {
      DurationSplits(a.value, r);
      DurationSplits(b.value, s);
      CancelDuration(a.value, b.value, r, s);
    }
  }

  lemma DurationSplits(t: Duration, r: Text)
    ensures TimeoutBytes(Some(t)) + r == [15, 1, 16] + (U64(t.seconds) + ([17] + (U32(t.nanoseconds) + r)))
  {
  }

  lemma CancelDuration(a: Duration, b: Duration, r: Text, s: Text)
    requires a.seconds < TWO64 && a.nanoseconds < TWO32 && b.seconds < TWO64 && b.nanoseconds < TWO32
    requires [15, 1, 16] + (U64(a.seconds) + ([17] + (U32(a.nanoseconds) + r))) == [15, 1, 16] + (U64(b.seconds) + ([17] + (U32(b.nanoseconds) + s)))
    ensures a == b && r == s
  {
    var x, y := [17] + (U32(a.nanoseconds) + r), [17] + (U32(b.nanoseconds) + s);
    CancelFixed([15, 1, 16], [15, 1, 16], U64(a.seconds) + x, U64(b.seconds) + y);
    CancelU64(a.seconds, b.seconds, x, y);
    CancelFixed([17], [17], U32(a.nanoseconds) + r, U32(b.nanoseconds) + s);
    CancelU32(a.nanoseconds, b.nanoseconds, r, s);
  }

  lemma CancelSalt(a: Option<Text>, b: Option<Text>)
    requires (a.Some? ==> |a.value| < TWO32) && (b.Some? ==> |b.value| < TWO32) && SaltBytes(a) == SaltBytes(b)
    ensures a == b
  {
    assert SaltBytes(a)[1] == SaltBytes(b)[1];
    if a.Some? {
      CancelFixed([18, 1, 19], [18, 1, 19], Text32(a.value), Text32(b.value));
      assert Text32(a.value) + [] == Text32(a.value) && Text32(b.value) + [] == Text32(b.value);
      CancelText32(a.value, b.value, [], []);
    }
  }

  lemma CancelRuntime(a: Runtime, b: Runtime, r: Text, s: Text)
    requires ValidDigest(RuntimeDigest(a)) && ValidDigest(RuntimeDigest(b)) && RuntimeBytes(a) + r == RuntimeBytes(b) + s
    ensures a == b && r == s
  {
    var x, y := DigestBytes(RuntimeDigest(a)), DigestBytes(RuntimeDigest(b));
    Regroup(RuntimeHead(a), x, r);
    Regroup(RuntimeHead(b), y, s);
    CancelFixed(RuntimeHead(a), RuntimeHead(b), x + r, y + s);
    CancelDigest(RuntimeDigest(a), RuntimeDigest(b), r, s);
    SameHeadSameRuntime(a, b);
  }

  lemma SameHeadSameRuntime(a: Runtime, b: Runtime)
    requires RuntimeHead(a) == RuntimeHead(b) && RuntimeDigest(a) == RuntimeDigest(b)
    ensures a == b
  {
  }

  /** Every length, count and integer of a descriptor fits its field, so no cast truncates. */
  ghost predicate Fits(plugins: seq<Plugin>, d: Descriptor) {
    && d.keyFormat < TWO16 && |d.workingDirectory| < TWO32
    && ValidDigest(d.taskDefinition) && ValidDigest(d.inputRoot) && ValidDigest(d.variables) && ValidDigest(d.environment)
    && ValidDigest(RuntimeDigest(d.runtime))
    && |plugins| < TWO32 && (forall i :: 0 <= i < |plugins| ==> PluginFits(plugins[i]))
    && |d.arguments| < TWO32 && (forall i :: 0 <= i < |d.arguments| ==> ArgumentFits(d.arguments[i]))
    && (d.timeout.Some? ==> d.timeout.value.seconds < TWO64 && d.timeout.value.nanoseconds < TWO32)
    && (d.salt.Some? ==> |d.salt.value| < TWO32)
  }

  lemma ValidatedFits(d: Descriptor)
    requires WellTyped(d) && Validated(d)
    ensures Fits(Canonical(d.plugins), d)
  {
    var s := Canonical(d.plugins);
    assert |s| == |multiset(s)| == |multiset(d.plugins)| == |d.plugins|;
    forall i | 0 <= i < |s| ensures PluginFits(s[i]) {
      assert s[i] in multiset(s) && s[i] in multiset(d.plugins);
      var k :| 0 <= k < |d.plugins| && d.plugins[k] == s[i];
    }
  }

  lemma CancelLists(ps: seq<Plugin>, qs: seq<Plugin>, d: Descriptor, e: Descriptor)
    requires Fits(ps, d) && Fits(qs, e) && ListsBytes(ps, d) == ListsBytes(qs, e)
    ensures ps == qs && d.arguments == e.arguments && d.timeout == e.timeout && d.salt == e.salt
  {
    var d3, e3 := TimeoutBytes(d.timeout) + SaltBytes(d.salt), TimeoutBytes(e.timeout) + SaltBytes(e.salt);
    var d2, e2 := U32(|d.arguments|) + (ArgumentsBytes(d.arguments) + d3), U32(|e.arguments|) + (ArgumentsBytes(e.arguments) + e3);
    var d1, e1 := PluginsBytes(ps) + ([13] + d2), PluginsBytes(qs) + ([13] + e2);
    CancelFixed([8], [8], U32(|ps|) + d1, U32(|qs|) + e1);
    CancelU32(|ps|, |qs|, d1, e1);
    PluginsDelimit();
    CancelList(PluginBytes, PluginFits, ps, qs, [13] + d2, [13] + e2);
    CancelFixed([13], [13], d2, e2);
    CancelU32(|d.arguments|, |e.arguments|, ArgumentsBytes(d.arguments) + d3, ArgumentsBytes(e.arguments) + e3);
    ArgumentsDelimit();
    CancelList(ArgumentBytes, ArgumentFits, d.arguments, e.arguments, d3, e3);
    CancelTimeout(d.timeout, e.timeout, SaltBytes(d.salt), SaltBytes(e.salt));
    CancelSalt(d.salt, e.salt);
  }

  /** A tagged digest in front of a stream. */
  lemma CancelTagged(tag: Byte, a: Digest, b: Digest, r: Text, s: Text)
    requires ValidDigest(a) && ValidDigest(b) && [tag] + (DigestBytes(a) + r) == [tag] + (DigestBytes(b) + s)
    ensures a == b && r == s
  {
    CancelFixed([tag], [tag], DigestBytes(a) + r, DigestBytes(b) + s);
    CancelDigest(a, b, r, s);
  }

  function FromVariables(plugins: seq<Plugin>, d: Descriptor): Text {
    [5] + (DigestBytes(d.variables) + ([6] + (DigestBytes(d.environment) + ([7] + (RuntimeBytes(d.runtime) + ListsBytes(plugins, d))))))
  }

  lemma CancelFromVariables(ps: seq<Plugin>, qs: seq<Plugin>, d: Descriptor, e: Descriptor)
    requires Fits(ps, d) && Fits(qs, e) && FromVariables(ps, d) == FromVariables(qs, e)
    ensures d.variables == e.variables && d.environment == e.environment && d.runtime == e.runtime
    ensures ListsBytes(ps, d) == ListsBytes(qs, e)
  {
    var d2, e2 := [7] + (RuntimeBytes(d.runtime) + ListsBytes(ps, d)), [7] + (RuntimeBytes(e.runtime) + ListsBytes(qs, e));
    CancelTagged(5, d.variables, e.variables, [6] + (DigestBytes(d.environment) + d2), [6] + (DigestBytes(e.environment) + e2));
    CancelTagged(6, d.environment, e.environment, d2, e2);
    CancelFixed([7], [7], RuntimeBytes(d.runtime) + ListsBytes(ps, d), RuntimeBytes(e.runtime) + ListsBytes(qs, e));
    CancelRuntime(d.runtime, e.runtime, ListsBytes(ps, d), ListsBytes(qs, e));
  }

  lemma CancelStream(ps: seq<Plugin>, qs: seq<Plugin>, d: Descriptor, e: Descriptor)
    requires Fits(ps, d) && Fits(qs, e) && Stream(ps, d) == Stream(qs, e)
    ensures ps == qs && d.(plugins := []) == e.(plugins := [])
  {
    var d4, e4 := [4] + (Text32(d.workingDirectory) + FromVariables(ps, d)), [4] + (Text32(e.workingDirectory) + FromVariables(qs, e));
    var d3, e3 := [3] + (DigestBytes(d.inputRoot) + d4), [3] + (DigestBytes(e.inputRoot) + e4);
    var d2, e2 := [2] + (DigestBytes(d.taskDefinition) + d3), [2] + (DigestBytes(e.taskDefinition) + e3);
    assert Stream(ps, d) == Text32(ACTION_DOMAIN) + ([1] + (U16(d.keyFormat) + d2));
    assert Stream(qs, e) == Text32(ACTION_DOMAIN) + ([1] + (U16(e.keyFormat) + e2));
    CancelFixed(Text32(ACTION_DOMAIN), Text32(ACTION_DOMAIN), [1] + (U16(d.keyFormat) + d2), [1] + (U16(e.keyFormat) + e2));
    CancelFixed([1], [1], U16(d.keyFormat) + d2, U16(e.keyFormat) + e2);
    CancelU16(d.keyFormat, e.keyFormat, d2, e2);
    CancelTagged(2, d.taskDefinition, e.taskDefinition, d3, e3);
    CancelTagged(3, d.inputRoot, e.inputRoot, d4, e4);
    CancelFixed([4], [4], Text32(d.workingDirectory) + FromVariables(ps, d), Text32(e.workingDirectory) + FromVariables(qs, e));
    CancelText32(d.workingDirectory, e.workingDirectory, FromVariables(ps, d), FromVariables(qs, e));
    CancelFromVariables(ps, qs, d, e);
    CancelLists(ps, qs, d, e);
  }

  /** Canonicity: validated descriptors share an encoding exactly when they are the same action. */
  lemma EncodingIsCanonical(d: Descriptor, e: Descriptor)
    requires WellTyped(d) && Validated(d) && WellTyped(e) && Validated(e)
    ensures Encode(d) == Encode(e) <==> SameAction(d, e)
  {
    ValidatedFits(d);
    ValidatedFits(e);
    if Encode(d) == Encode(e) {
      CancelStream(Canonical(d.plugins), Canonical(e.plugins), d, e);
      assert multiset(d.plugins) == multiset(Canonical(d.plugins));
    }
    if SameAction(d, e) {
      PluginOrderIsNormalised(d.plugins, e.plugins);
      SameFieldsSameStream(Canonical(d.plugins), d, e);
    }
  }

  lemma SameFieldsSameStream(ps: seq<Plugin>, d: Descriptor, e: Descriptor)
    requires d.(plugins := []) == e.(plugins := [])
    ensures Stream(ps, d) == Stream(ps, e)
  {
  }

  lemma SwapStaysValid(d: Descriptor, i: nat, k: nat)
    requires WellTyped(d) && Validated(d) && i < |d.arguments| && k < |d.arguments|
    ensures var e := d.(arguments := d.arguments[i := d.arguments[k]][k := d.arguments[i]]); WellTyped(e) && Validated(e)
  {
  }

  lemma SwapIsAnotherAction(d: Descriptor, i: nat, k: nat)
    requires i < |d.arguments| && k < |d.arguments| && d.arguments[i] != d.arguments[k]
    ensures !SameAction(d, d.(arguments := d.arguments[i := d.arguments[k]][k := d.arguments[i]]))
  {
    assert d.arguments[i := d.arguments[k]][k := d.arguments[i]][i] != d.arguments[i];
  }

  /** Argument order is significant: swapping two different arguments changes the encoding. */
  lemma ArgumentOrderMatters(d: Descriptor, i: nat, k: nat)
    requires WellTyped(d) && Validated(d) && i < |d.arguments| && k < |d.arguments| && d.arguments[i] != d.arguments[k]
    ensures Encode(d) != Encode(d.(arguments := d.arguments[i := d.arguments[k]][k := d.arguments[i]]))
  {
    var e := d.(arguments := d.arguments[i := d.arguments[k]][k := d.arguments[i]]);
    SwapStaysValid(d, i, k);
    SwapIsAnotherAction(d, i, k);
    EncodingIsCanonical(d, e);
  }

  // ---------------------------------------------------------------- the streaming encoder

  /** `CanonicalEncoder`: `stream` is everything fed to the hasher, `bytes` the running count. */
  class CanonicalEncoder {
    var stream: Text
    var bytes: nat

    ghost predicate Counted()
      reads this
    {
      bytes == |stream|
    }

    constructor (domain: Text)
      ensures Counted() && stream == Text32(domain)
    {
      stream, bytes := [], 0;
      new;
      Raw(U32(|domain|));
      Raw(domain);
    }

    method Raw(value: Text)
      requires Counted()
      modifies this
      ensures Counted() && stream == old(stream) + value
    {
      stream := stream + value;
      bytes := bytes + |value|;
    }

    method PutByte(tag: Byte, value: Byte)
      requires Counted()
      modifies this
      ensures Counted() && stream == old(stream) + [tag, value]
    {
      Raw([tag]);
      Raw([value]);
      assert [tag] + [value] == [tag, value];
    }

    method PutU16(tag: Byte, value: nat)
      requires Counted()
      modifies this
      ensures Counted() && stream == old(stream) + ([tag] + U16(value))
    {
      Raw([tag]);
      Raw(U16(value));
    }

    method PutU32(tag: Byte, value: nat)
      requires Counted()
      modifies this
      ensures Counted() && stream == old(stream) + ([tag] + U32(value))
    {
      Raw([tag]);
      Raw(U32(value));
    }

    method PutU64(tag: Byte, value: nat)
      requires Counted()
      modifies this
      ensures Counted() && stream == old(stream) + ([tag] + U64(value))
    {
      Raw([tag]);
      Raw(U64(value));
    }

    method PutString(tag: Byte, value: Text)
      requires Counted()
      modifies this
      ensures Counted() && stream == old(stream) + ([tag] + Text32(value))
    {
      Raw([tag]);
      Raw(U32(|value|));
      Raw(value);
    }

    method PutDigest(tag: Byte, value: Digest)
      requires Counted()
      modifies this
      ensures Counted() && stream == old(stream) + ([tag] + DigestBytes(value))
    {
      Raw([tag]);
      Raw([AlgorithmTag(value.algorithm)]);
      Raw(U64(value.size));
      Raw(value.hash);
    }

    method PutRuntime(tag: Byte, runtime: Runtime)
      requires Counted()
      modifies this
      ensures Counted() && stream == old(stream) + ([tag] + RuntimeBytes(runtime))
    {
      Raw([tag]);
      match runtime {
        case Native(os, a, environment) =>
          Raw([1, OsTag(os), ArchitectureTag(a)]);
          PutDigest(20, environment);
          RuntimePieces(old(stream), tag, [1, OsTag(os), ArchitectureTag(a)], 20, DigestBytes(environment));
          assert [1, OsTag(os), ArchitectureTag(a)] + [20] == [1, OsTag(os), ArchitectureTag(a), 20];
        case Oci(os, a, image) =>
          Raw([2, OsTag(os), ArchitectureTag(a)]);
          PutDigest(21, image);
          RuntimePieces(old(stream), tag, [2, OsTag(os), ArchitectureTag(a)], 21, DigestBytes(image));
          assert [2, OsTag(os), ArchitectureTag(a)] + [21] == [2, OsTag(os), ArchitectureTag(a), 21];
      }
    }

    /** One plugin of the loop in `digest`. */
    method PutPlugin(p: Plugin)
      requires Counted()
      modifies this
      ensures Counted() && stream == old(stream) + PluginBytes(p)
    {
      ghost var s0 := stream;
      PutString(9, p.name);
      PutString(10, p.version);
      PutU16(11, p.protocolVersion);
      PutDigest(12, p.executable);
      PluginPieces(s0, p);
    }

    /** The plugin loop of `digest`. */
    method PutPlugins(plugins: seq<Plugin>)
      requires Counted()
      modifies this
      ensures Counted() && stream == old(stream) + ([8] + U32(|plugins|)) + PluginsBytes(plugins)
    {
      PutU32(8, |plugins|);
      ghost var start := stream;
      for i := 0 to |plugins|
        invariant Counted() && stream == start + PluginsBytes(plugins[..i])
      {
        NextPlugin(start, plugins, i);
        PutPlugin(plugins[i]);
      }
      assert plugins[..|plugins|] == plugins;
    }

    /** The argument loop of `digest`. */
    method PutArguments(arguments: seq<Text>)
      requires Counted()
      modifies this
      ensures Counted() && stream == old(stream) + ([13] + U32(|arguments|)) + ArgumentsBytes(arguments)
    {
      PutU32(13, |arguments|);
      ghost var start := stream;
      for i := 0 to |arguments|
        invariant Counted() && stream == start + ArgumentsBytes(arguments[..i])
      {
        NextArgument(start, arguments, i);
        PutString(14, arguments[i]);
      }
      assert arguments[..|arguments|] == arguments;
    }

    method PutTimeout(timeout: Option<Duration>)
      requires Counted()
      modifies this
      ensures Counted() && stream == old(stream) + TimeoutBytes(timeout)
    {
      match timeout {
        case Some(t) =>
          PutByte(15, 1);
          PutU64(16, t.seconds);
          PutU32(17, t.nanoseconds);
          TimeoutPieces(old(stream), t);
        case None => PutByte(15, 0);
      }
    }

    method PutSalt(salt: Option<Text>)
      requires Counted()
      modifies this
      ensures Counted() && stream == old(stream) + SaltBytes(salt)
    {
      match salt {
        case Some(t) =>
          PutByte(18, 1);
          PutString(19, t);
          assert [18, 1] + ([19] + Text32(t)) == [18, 1, 19] + Text32(t);
        case None => PutByte(18, 0);
      }
    }

    /** Fields 1 to 4. */
    method PutTask(d: Descriptor)
      requires Counted()
      modifies this
      ensures Counted() && stream == old(stream) + TaskBytes(d)
    {
      PutU16(1, d.keyFormat);
      PutDigest(2, d.taskDefinition);
      PutDigest(3, d.inputRoot);
      PutString(4, d.workingDirectory);
      TaskPieces(old(stream), d);
    }

    /** Fields 5 to 7. */
    method PutEnvironment(d: Descriptor)
      requires Counted()
      modifies this
      ensures Counted() && stream == old(stream) + EnvironmentBytes(d)
    {
      PutDigest(5, d.variables);
      PutDigest(6, d.environment);
      PutRuntime(7, d.runtime);
      EnvironmentPieces(old(stream), d);
    }

    /** Fields 8 to 19. */
    method PutLists(d: Descriptor)
      requires Counted()
      modifies this
      ensures Counted() && stream == old(stream) + ListsBytes(Canonical(d.plugins), d)
    {
      PutPlugins(Canonical(d.plugins));
      PutArguments(d.arguments);
      PutTimeout(d.timeout);
      PutSalt(d.salt);
      ListPieces(old(stream), Canonical(d.plugins), d);
    }
  }

  function TaskBytes(d: Descriptor): Text {
    ([1] + U16(d.keyFormat)) + ([2] + DigestBytes(d.taskDefinition)) + ([3] + DigestBytes(d.inputRoot)) + ([4] + Text32(d.workingDirectory))
  }

  function EnvironmentBytes(d: Descriptor): Text {
    ([5] + DigestBytes(d.variables)) + ([6] + DigestBytes(d.environment)) + ([7] + RuntimeBytes(d.runtime))
  }

  lemma RuntimePieces(s: Text, tag: Byte, head: Text, inner: Byte, digest: Text)
    ensures s + [tag] + head + ([inner] + digest) == s + ([tag] + (head + [inner] + digest))
  {
  }

  lemma NextPlugin(s: Text, plugins: seq<Plugin>, i: nat)
    requires i < |plugins|
    ensures (s + PluginsBytes(plugins[..i])) + PluginBytes(plugins[i]) == s + PluginsBytes(plugins[..i + 1])
  {
    assert plugins[..i + 1] == plugins[..i] + [plugins[i]];
    ConcatOne(PluginBytes, plugins[..i], plugins[i]);
    Regroup(s, PluginsBytes(plugins[..i]), PluginBytes(plugins[i]));
  }

  lemma NextArgument(s: Text, arguments: seq<Text>, i: nat)
    requires i < |arguments|
    ensures (s + ArgumentsBytes(arguments[..i])) + ([14] + Text32(arguments[i])) == s + ArgumentsBytes(arguments[..i + 1])
  {
    assert arguments[..i + 1] == arguments[..i] + [arguments[i]];
    ConcatOne(ArgumentBytes, arguments[..i], arguments[i]);
    Regroup(s, ArgumentsBytes(arguments[..i]), ArgumentBytes(arguments[i]));
  }

  lemma TaskPieces(s: Text, d: Descriptor)
    ensures s + ([1] + U16(d.keyFormat)) + ([2] + DigestBytes(d.taskDefinition)) + ([3] + DigestBytes(d.inputRoot)) + ([4] + Text32(d.workingDirectory))
         == s + TaskBytes(d)
  {
  }

  lemma EnvironmentPieces(s: Text, d: Descriptor)
    ensures s + ([5] + DigestBytes(d.variables)) + ([6] + DigestBytes(d.environment)) + ([7] + RuntimeBytes(d.runtime)) == s + EnvironmentBytes(d)
  {
  }

  lemma TimeoutPieces(s: Text, t: Duration)
    ensures s + [15, 1] + ([16] + U64(t.seconds)) + ([17] + U32(t.nanoseconds)) == s + TimeoutBytes(Some(t))
  {
  }

  lemma PluginPieces(s: Text, p: Plugin)
    ensures s + ([9] + Text32(p.name)) + ([10] + Text32(p.version)) + ([11] + U16(p.protocolVersion)) + ([12] + DigestBytes(p.executable))
         == s + PluginBytes(p)
  {
  }

  lemma ListPieces(s: Text, plugins: seq<Plugin>, d: Descriptor)
    ensures s + ([8] + U32(|plugins|)) + PluginsBytes(plugins) + ([13] + U32(|d.arguments|)) + ArgumentsBytes(d.arguments)
              + TimeoutBytes(d.timeout) + SaltBytes(d.salt)
         == s + ListsBytes(plugins, d)
  {
  }

  lemma StreamPieces(plugins: seq<Plugin>, d: Descriptor)
    ensures Text32(ACTION_DOMAIN) + TaskBytes(d) + EnvironmentBytes(d) + ListsBytes(plugins, d) == Stream(plugins, d)
  {
  }

  /** `ActionDescriptorV1::digest` up to the final hash: the hashed stream and the counted size. */
  method DigestInput(d: Descriptor) returns (r: Option<(Text, nat)>)
    ensures r.Some? <==> Validated(d)
    ensures r.Some? ==> r.value == (Encode(d), |Encode(d)|)
  {
    var ok := Validate(d);
    if !ok {
      return None;
    }
    var encoder := new CanonicalEncoder(ACTION_DOMAIN);
    encoder.PutTask(d);
    encoder.PutEnvironment(d);
    encoder.PutLists(d);
    StreamPieces(Canonical(d.plugins), d);
    return Some((encoder.stream, encoder.bytes));
  }

  lemma {:induction false} ConcatSize<T>(f: T -> Text, xs: seq<T>, bound: nat)
    requires forall i :: 0 <= i < |xs| ==> |f(xs[i])| <= bound
    ensures |ConcatMap(f, xs)| <= |xs| * bound
  {
    if xs != [] { ConcatSize(f, xs[1..], bound); }
  }

  /** The 64-bit byte counter cannot overflow on a validated descriptor. */
  lemma CountFitsU64(d: Descriptor)
    requires WellTyped(d) && Validated(d)
    ensures |Encode(d)| < TWO64
  {
    StreamPieces(Canonical(d.plugins), d);
    ListsFit(d);
  }

  lemma PluginsFit(d: Descriptor)
    requires WellTyped(d) && Validated(d)
    ensures |PluginsBytes(Canonical(d.plugins))| <= |d.plugins| * 40000
  {
    var plugins := Canonical(d.plugins);
    assert |plugins| == |multiset(plugins)| == |multiset(d.plugins)| == |d.plugins|;
    forall i | 0 <= i < |plugins| ensures |PluginBytes(plugins[i])| <= 40000 {
      assert plugins[i] in multiset(d.plugins);
      var k :| 0 <= k < |d.plugins| && d.plugins[k] == plugins[i];
      assert ValidPlugin(d.plugins[k]);
    }
    ConcatSize(PluginBytes, plugins, 40000);
  }

  lemma ListsFit(d: Descriptor)
    requires WellTyped(d) && Validated(d)
    ensures |ListsBytes(Canonical(d.plugins), d)| < TWO64 / 2
  {
    PluginsFit(d);
    ConcatSize(ArgumentBytes, d.arguments, 20000);
  }
}
