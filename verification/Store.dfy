/** The two-tier task-result store: private or shared local tiers over one remote service. */
module Store {
  import opened Orders
  import opened Paths
  import opened Bytes

  datatype Blob = Blob(digest: Digest, identity: bool, encodedSize: nat, expandedSize: nat, entryCount: nat)

  /** An action result: the action it is bound to, its bundle, and everything else in it. */
  datatype ActionResult = ActionResult(action: Digest, bundle: Option<Blob>, rest: Text)

  datatype Outcome = Written | AlreadyPresent | Conflict

  datatype Reply<T> = Answer(value: T) | Failure

  /** Whether a remote call is answered; a lost one may still have been carried out. */
  datatype Fate = Reached | Lost(applied: bool)

  /** Nothing is removed and nothing is rebound. */
  ghost predicate Grows<K, V>(before: map<K, V>, after: map<K, V>) {
    forall k :: k in before ==> k in after && after[k] == before[k]
  }

  function Absent(blobs: seq<Blob>, present: set<Blob>): seq<Blob> {
    if blobs == [] then []
    else (if blobs[0] in present then [] else [blobs[0]]) + Absent(blobs[1..], present)
  }

  lemma {:induction false} AbsentOneMore(blobs: seq<Blob>, b: Blob, present: set<Blob>)
    ensures Absent(blobs + [b], present) == Absent(blobs, present) + (if b in present then [] else [b])
  {
    if blobs == [] {
      assert [b][1..] == [];
    } else {
      assert (blobs + [b])[1..] == blobs[1..] + [b];
      AbsentOneMore(blobs[1..], b, present);
    }
  }

  lemma {:induction false} AbsentMembers(blobs: seq<Blob>, present: set<Blob>)
    ensures forall b :: b in Absent(blobs, present) <==> b in blobs && b !in present
  {
    if blobs != [] { AbsentMembers(blobs[1..], present); }
  }

  /** Asking one tier after the other leaves what both lack. */
  lemma {:induction false} AbsentTwice(blobs: seq<Blob>, local: set<Blob>, remote: set<Blob>)
    ensures Absent(Absent(blobs, local), remote) == Absent(blobs, local + remote)
  {
    if blobs != [] {
      AbsentTwice(blobs[1..], local, remote);
      var rest := Absent(blobs[1..], local);
      assert ([blobs[0]] + rest)[1..] == rest && [] + rest == rest;
    }
  }

  /** The request-order loop of `find_missing`. */
  method Missing(blobs: seq<Blob>, present: set<Blob>) returns (missing: seq<Blob>)
    ensures missing == Absent(blobs, present)
  {
    missing := [];
    for i := 0 to |blobs|
      invariant missing == Absent(blobs[..i], present)
    {
      assert blobs[..i + 1] == blobs[..i] + [blobs[i]];
      AbsentOneMore(blobs[..i], blobs[i], present);
      if blobs[i] !in present {
        missing := missing + [blobs[i]];
      }
    }
    assert blobs[..|blobs|] == blobs;
  }

  // ----- the remote service

  datatype Request = PutAction(namespace: Text, result: ActionResult) | PutBlob(blob: Blob, body: Text)

  /** The service files an action under its namespace and the hash text of its digest. */
  function RemoteKey(namespace: Text, result: ActionResult): (Text, Text) { (namespace, result.action.hash) }

  ghost predicate BundlesPresent(actions: map<(Text, Text), ActionResult>, blobs: map<Blob, Text>) {
    forall k :: k in actions && actions[k].bundle.Some? ==> actions[k].bundle.value in blobs
  }

  class ReferenceCache {
    const hash: Text -> Digest
    var actions: map<(Text, Text), ActionResult>
    var blobs: map<Blob, Text>

    ghost predicate Valid()
      reads this
    {
      BundlesPresent(actions, blobs)
    }

    constructor (hash: Text -> Digest)
      ensures Valid() && actions == map[] && blobs == map[] && this.hash == hash
    {
      this.hash, actions, blobs := hash, map[], map[];
    }

    predicate HasBundle(result: ActionResult)
      reads this
    {
      result.bundle.Some? ==> result.bundle.value in blobs
    }

    /** An action that the service will not take: its bundle is missing, or its key is bound to another result. */
    predicate Refuses(namespace: Text, result: ActionResult)
      reads this
    {
      || !HasBundle(result)
      || (RemoteKey(namespace, result) in actions && actions[RemoteKey(namespace, result)] != result)
    }

    /** `write_action`: 201, 204 or 409; a missing bundle is a conflict too. */
    method WriteAction(namespace: Text, result: ActionResult) returns (o: Outcome)
      requires Valid()
      modifies this`actions
      ensures Valid() && Grows(old(actions), actions)
      ensures o != Conflict <==> RemoteKey(namespace, result) in actions && actions[RemoteKey(namespace, result)] == result && HasBundle(result)
      ensures HasBundle(result) ==> RemoteKey(namespace, result) in actions
      ensures o == Written <==> actions != old(actions)
      ensures o == Conflict <==> old(Refuses(namespace, result))
      ensures actions.Keys <= old(actions).Keys + {RemoteKey(namespace, result)}
    {
      var key := RemoteKey(namespace, result);
      if result.bundle.Some? && result.bundle.value !in blobs {
        return Conflict;
      }
      if key in actions {
        return if actions[key] == result then AlreadyPresent else Conflict;
      }
      actions := actions[key := result];
      return Written;
    }

    predicate Accepts(blob: Blob, body: Text)
      reads this
    {
      |body| == blob.encodedSize && (blob.identity ==> blob.digest == hash(body))
    }

    /** `write_blob`: a body that does not fit its descriptor is refused. */
    method WriteBlob(blob: Blob, body: Text) returns (r: Reply<Outcome>)
      requires Valid()
      modifies this`blobs
      ensures Valid() && Grows(old(blobs), blobs)
      ensures r.Failure? <==> !Accepts(blob, body)
      ensures r.Answer? && r.value != Conflict <==> Accepts(blob, body) && blob in blobs && blobs[blob] == body
      ensures r == Answer(Written) <==> blobs != old(blobs)
      ensures r.Answer? ==> blob in blobs
      ensures r == Answer(Conflict) ==> blob in old(blobs)
      ensures blobs.Keys <= old(blobs).Keys + {blob}
    {
      if !Accepts(blob, body) {
        return Failure;
      }
      if blob in blobs {
        return Answer(if blobs[blob] == body then AlreadyPresent else Conflict);
      }
      blobs := blobs[blob := body];
      return Answer(Written);
    }

    /** Any number of requests of other clients, in any order. */
    method Serve(script: seq<Request>)
      requires Valid()
      modifies this
      ensures Valid() && Grows(old(actions), actions) && Grows(old(blobs), blobs)
      ensures script == [] ==> actions == old(actions) && blobs == old(blobs)
    {
      for i := 0 to |script|
        invariant Valid() && Grows(old(actions), actions) && Grows(old(blobs), blobs)
        invariant i == 0 ==> actions == old(actions) && blobs == old(blobs)
      {
        match script[i] {
          case PutAction(namespace, result) => var _ := WriteAction(namespace, result);
          case PutBlob(blob, body) => var _ := WriteBlob(blob, body);
        }
      }
    }
  }

  // ----- the local tier

  datatype LocalRequest =
    | Publish(namespace: Text, result: ActionResult)
    | Keep(blob: Blob, body: Text)
    | Quarantine(namespace: Text, result: ActionResult)
    | Evict(key: (Text, Digest))
    | Drop(blob: Blob)

  function LocalKey(namespace: Text, result: ActionResult): (Text, Digest) { (namespace, result.action) }

  /** What one request does to the binding of one key, given the blobs at hand. */
  function ReplayOne(r: LocalRequest, key: (Text, Digest), bound: Option<ActionResult>, blobs: set<Blob>): Option<ActionResult> {
    match r
    case Publish(namespace, result) =>
      if LocalKey(namespace, result) == key && bound.None? && (result.bundle.Some? ==> result.bundle.value in blobs) then Some(result)
      else bound
    case Quarantine(namespace, result) => if LocalKey(namespace, result) == key && bound != Some(result) then None else bound
    case Evict(k) => if k == key then None else bound
    case _ => bound
  }

  /** What one request does to the set of blobs. */
  function ReplayBlobs(genuine: (Blob, Text) -> bool, r: LocalRequest, blobs: set<Blob>): set<Blob> {
    match r
    case Keep(blob, body) => if genuine(blob, body) then blobs + {blob} else blobs
    case Drop(blob) => blobs - {blob}
    case _ => blobs
  }

  /** The binding of one key after a script. */
  function Replay(genuine: (Blob, Text) -> bool, script: seq<LocalRequest>, key: (Text, Digest),
      bound: Option<ActionResult>, blobs: set<Blob>)
    : Option<ActionResult>
  {
    if script == [] then bound
    else Replay(genuine, script[1..], key, ReplayOne(script[0], key, bound, blobs), ReplayBlobs(genuine, script[0], blobs))
  }

  function BlobsAfter(genuine: (Blob, Text) -> bool, script: seq<LocalRequest>, blobs: set<Blob>): set<Blob> {
    if script == [] then blobs else BlobsAfter(genuine, script[1..], ReplayBlobs(genuine, script[0], blobs))
  }

  lemma {:induction false} ReplayAppend(genuine: (Blob, Text) -> bool, a: seq<LocalRequest>, b: seq<LocalRequest>,
      key: (Text, Digest),
                                        bound: Option<ActionResult>, blobs: set<Blob>)
    ensures Replay(genuine, a + b, key, bound, blobs) == Replay(genuine, b, key, Replay(genuine, a, key, bound, blobs), BlobsAfter(genuine, a, blobs))
    ensures BlobsAfter(genuine, a + b, blobs) == BlobsAfter(genuine, b, BlobsAfter(genuine, a, blobs))
  {
    if a == [] {
      assert a + b == b;
    } else {
      assert (a + b)[1..] == a[1..] + b;
      ReplayAppend(genuine, a[1..], b, key, ReplayOne(a[0], key, bound, blobs), ReplayBlobs(genuine, a[0], blobs));
    }
  }

  function Binding(actions: map<(Text, Digest), ActionResult>, key: (Text, Digest)): Option<ActionResult> {
    if key in actions then Some(actions[key]) else None
  }

  /** Some request of the script may unbind the key. */
  ghost predicate Unbinds(script: seq<LocalRequest>, key: (Text, Digest)) {
    exists i :: 0 <= i < |script| && UnbindsOnce(script[i], key)
  }

  predicate UnbindsOnce(r: LocalRequest, key: (Text, Digest)) {
    match r
    case Quarantine(namespace, result) => LocalKey(namespace, result) == key
    case Evict(k) => k == key
    case _ => false
  }

  /** The first `n` requests have been replayed. */
  ghost predicate ReplayedUpTo(genuine: (Blob, Text) -> bool, script: seq<LocalRequest>, n: nat,
                               actions: map<(Text, Digest), ActionResult>, blobs: set<Blob>,
                               actions0: map<(Text, Digest), ActionResult>, blobs0: set<Blob>)
    requires n <= |script|
  {
    && blobs == BlobsAfter(genuine, script[..n], blobs0)
    && forall k :: Binding(actions, k) == Replay(genuine, script[..n], k, Binding(actions0, k), blobs0)
  }

  lemma ReplayedOneMore(genuine: (Blob, Text) -> bool, script: seq<LocalRequest>, n: nat,
                        actions: map<(Text, Digest), ActionResult>, blobs: set<Blob>,
                        actions': map<(Text, Digest), ActionResult>, blobs': set<Blob>,
                        actions0: map<(Text, Digest), ActionResult>, blobs0: set<Blob>)
    requires n < |script| && ReplayedUpTo(genuine, script, n, actions, blobs, actions0, blobs0)
    requires forall k :: Binding(actions', k) == ReplayOne(script[n], k, Binding(actions, k), blobs)
    requires blobs' == ReplayBlobs(genuine, script[n], blobs)
    ensures ReplayedUpTo(genuine, script, n + 1, actions', blobs', actions0, blobs0)
  {
    assert script[..n + 1] == script[..n] + [script[n]];
    forall k ensures Binding(actions', k) == Replay(genuine, script[..n + 1], k, Binding(actions0, k), blobs0) {
      ReplayAppend(genuine, script[..n], [script[n]], k, Binding(actions0, k), blobs0);
      ReplaySingle(genuine, script[n], k, Binding(actions, k), blobs);
    }
    ReplayAppend(genuine, script[..n], [script[n]], ([], Digest(Blake3, [], 0)), None, blobs0);
    ReplaySingle(genuine, script[n], ([], Digest(Blake3, [], 0)), None, blobs);
  }

  lemma ReplaySingle(genuine: (Blob, Text) -> bool, r: LocalRequest, key: (Text, Digest), bound: Option<ActionResult>,
      blobs: set<Blob>)
    ensures Replay(genuine, [r], key, bound, blobs) == ReplayOne(r, key, bound, blobs)
    ensures BlobsAfter(genuine, [r], blobs) == ReplayBlobs(genuine, r, blobs)
  {
    assert [r][1..] == [];
  }

  /** Some request of the script may bind the key to another result. */
  ghost predicate Rivals(script: seq<LocalRequest>, namespace: Text, result: ActionResult) {
    exists i :: 0 <= i < |script| && script[i].Publish? && script[i].result != result
                && LocalKey(script[i].namespace, script[i].result) == LocalKey(namespace, result)
  }

  class LocalStore {
    /** The local store's own verification of a body against its descriptor. */
    const genuine: (Blob, Text) -> bool
    var actions: map<(Text, Digest), ActionResult>
    var blobs: map<Blob, Text>

    constructor (genuine: (Blob, Text) -> bool)
      ensures Valid() && this.genuine == genuine && actions == map[] && blobs == map[]
    {
      this.genuine, actions, blobs := genuine, map[], map[];
    }

    /** Every stored body passed verification. */
    ghost predicate Valid()
      reads this
    {
      forall b :: b in blobs ==> genuine(b, blobs[b])
    }

    ghost predicate Bound(namespace: Text, result: ActionResult)
      reads this
    {
      LocalKey(namespace, result) in actions && actions[LocalKey(namespace, result)] == result
    }

    predicate HasBundle(result: ActionResult)
      reads this
    {
      result.bundle.Some? ==> result.bundle.value in blobs
    }

    /** Create if absent; fails when the bundle is not in this tier. */
    method WriteAction(namespace: Text, result: ActionResult) returns (r: Reply<Outcome>)
      modifies this`actions
      ensures Grows(old(actions), actions)
      ensures actions.Keys <= old(actions).Keys + {LocalKey(namespace, result)}
      ensures r.Failure? <==> result.bundle.Some? && result.bundle.value !in blobs
      ensures r.Answer? ==> LocalKey(namespace, result) in actions && (r.value != Conflict <==> Bound(namespace, result))
      ensures r == Answer(Written) <==> actions != old(actions)
      ensures forall k :: Binding(actions, k) == ReplayOne(Publish(namespace, result), k, Binding(old(actions), k), blobs.Keys)
    {
      var key := LocalKey(namespace, result);
      if result.bundle.Some? && result.bundle.value !in blobs {
        return Failure;
      }
      if key in actions {
        return Answer(if actions[key] == result then AlreadyPresent else Conflict);
      }
      actions := actions[key := result];
      return Answer(Written);
    }

    /** Create if absent after verification; a present blob is the verified one. */
    method WriteBlob(blob: Blob, body: Text) returns (r: Reply<Outcome>)
      requires Valid()
      modifies this`blobs
      ensures Valid()
      ensures r.Failure? <==> blob !in old(blobs) && !genuine(blob, body)
      ensures r == Answer(Written) <==> blob !in old(blobs) && genuine(blob, body)
      ensures r.Answer? ==> r.value != Conflict && blob in blobs
      ensures blobs == if r == Answer(Written) then old(blobs)[blob := body] else old(blobs)
    {
      if blob in blobs {
        return Answer(AlreadyPresent);
      }
      if !genuine(blob, body) {
        return Failure;
      }
      blobs := blobs[blob := body];
      return Answer(Written);
    }

    /** `quarantine_conflicting_action`: removes the binding only if it still differs. */
    method QuarantineConflicting(namespace: Text, result: ActionResult)
      modifies this`actions
      ensures LocalKey(namespace, result) in actions ==> actions[LocalKey(namespace, result)] == result
      ensures forall k :: k != LocalKey(namespace, result) ==> (k in actions <==> k in old(actions))
      ensures forall k :: k in actions ==> k in old(actions) && actions[k] == old(actions)[k]
      ensures old(Bound(namespace, result)) ==> Bound(namespace, result)
      ensures forall k :: Binding(actions, k) == ReplayOne(Quarantine(namespace, result), k, Binding(old(actions), k), blobs.Keys)
    {
      var key := LocalKey(namespace, result);
      if key in actions && actions[key] != result {
        actions := actions - {key};
      }
    }

    method Handle(request: LocalRequest)
      requires Valid()
      modifies this
      ensures Valid()
      ensures forall k :: Binding(actions, k) == ReplayOne(request, k, Binding(old(actions), k), old(blobs).Keys)
      ensures blobs.Keys == ReplayBlobs(genuine, request, old(blobs).Keys)
      ensures forall k :: k in old(actions) && !UnbindsOnce(request, k) ==> k in actions && actions[k] == old(actions)[k]
      ensures forall k :: k in actions && k !in old(actions) ==>
                request.Publish? && k == LocalKey(request.namespace, request.result) && actions[k] == request.result
      ensures forall k :: k in actions && k in old(actions) ==> actions[k] == old(actions)[k]
      ensures forall b :: b in old(blobs) && request != Drop(b) ==> b in blobs && blobs[b] == old(blobs)[b]
    {
      match request {
        case Publish(namespace, result) => var _ := WriteAction(namespace, result);
        case Keep(blob, body) => var _ := WriteBlob(blob, body);
        case Quarantine(namespace, result) => QuarantineConflicting(namespace, result);
        case Evict(key) => actions := actions - {key};
        case Drop(blob) => blobs := blobs - {blob};
      }
    }

    /** Other users of the same local tier, in any order. */
    method Serve(script: seq<LocalRequest>)
      requires Valid()
      modifies this
      ensures Valid()
      ensures script == [] ==> actions == old(actions) && blobs == old(blobs)
      ensures forall k :: Binding(actions, k) == Replay(genuine, script, k, Binding(old(actions), k), old(blobs).Keys)
      ensures blobs.Keys == BlobsAfter(genuine, script, old(blobs).Keys)
      ensures forall k :: k in old(actions) && !Unbinds(script, k) ==> k in actions && actions[k] == old(actions)[k]
      ensures forall b :: b in old(blobs) && Drop(b) !in script ==> b in blobs && blobs[b] == old(blobs)[b]
      ensures forall namespace, result :: LocalKey(namespace, result) !in old(actions) && !Rivals(script, namespace, result) ==>
                LocalKey(namespace, result) !in actions || Bound(namespace, result)
    {
      for i := 0 to |script|
        invariant Valid() && (i == 0 ==> actions == old(actions) && blobs == old(blobs))
        invariant ReplayedUpTo(genuine, script, i, actions, blobs.Keys, old(actions), old(blobs).Keys)
        invariant forall k :: k in old(actions) && !Unbinds(script, k) ==> k in actions && actions[k] == old(actions)[k]
        invariant forall b :: b in old(blobs) && Drop(b) !in script ==> b in blobs && blobs[b] == old(blobs)[b]
        invariant forall namespace, result :: LocalKey(namespace, result) !in old(actions) && !Rivals(script, namespace, result) ==>
                    LocalKey(namespace, result) !in actions || Bound(namespace, result)
      {
        ghost var actions', blobs' := actions, blobs.Keys;
        Handle(script[i]);
        ReplayedOneMore(genuine, script, i, actions', blobs', actions, blobs.Keys, old(actions), old(blobs).Keys);
      }
      assert script[..|script|] == script;
    }
  }

  // ----- the layered store

  /** What other clients do to the two tiers between two steps of an operation. */
  datatype Gap = Gap(remote: seq<Request>, local: seq<LocalRequest>)

  const QUIET := Gap([], [])

  datatype Tier = Local | Remote

  predicate NoRepeats(blobs: seq<Blob>) {
    forall i, k :: 0 <= i < k < |blobs| ==> blobs[i] != blobs[k]
  }

  class LayeredCacheStore {
    const local: LocalStore
    const remote: ReferenceCache
    var warned: bool

    constructor (local: LocalStore, remote: ReferenceCache)
      ensures this.local == local && this.remote == remote && !warned
    {
      this.local, this.remote, warned := local, remote, false;
    }

    method Pause(gap: Gap)
      requires local.Valid() && remote.Valid()
      modifies local, remote
      ensures local.Valid() && remote.Valid() && Grows(old(remote.actions), remote.actions) && Grows(old(remote.blobs), remote.blobs)
      ensures gap == QUIET ==>
                && local.actions == old(local.actions) && local.blobs == old(local.blobs)
                && remote.actions == old(remote.actions) && remote.blobs == old(remote.blobs)
      ensures gap.remote == [] ==> remote.actions == old(remote.actions) && remote.blobs == old(remote.blobs)
      ensures forall k :: Binding(local.actions, k) == Replay(local.genuine, gap.local, k, Binding(old(local.actions), k), old(local.blobs).Keys)
      ensures local.blobs.Keys == BlobsAfter(local.genuine, gap.local, old(local.blobs).Keys)
      ensures forall k :: k in old(local.actions) && !Unbinds(gap.local, k) ==> k in local.actions && local.actions[k] == old(local.actions)[k]
      ensures forall b :: b in old(local.blobs) && Drop(b) !in gap.local ==> b in local.blobs && local.blobs[b] == old(local.blobs)[b]
      ensures forall namespace, result ::
                LocalKey(namespace, result) !in old(local.actions) && !Rivals(gap.local, namespace, result) ==>
                  LocalKey(namespace, result) !in local.actions || local.Bound(namespace, result)
    {
      remote.Serve(gap.remote);
      local.Serve(gap.local);
    }

    /** The missing-blob call of the HTTP client, which rejects an answer with repeated descriptors. */
    method AskRemote(blobs: seq<Blob>, fate: Fate) returns (r: Reply<seq<Blob>>)
      ensures r.Answer? <==> fate.Reached? && NoRepeats(Absent(blobs, remote.blobs.Keys))
      ensures r.Answer? ==> r.value == Absent(blobs, remote.blobs.Keys)
    {
      if fate.Lost? {
        return Failure;
      }
      var missing := Missing(blobs, remote.blobs.Keys);
      if !NoRepeats(missing) {
        return Failure;
      }
      return Answer(missing);
    }

    /** `find_missing_blobs`; `localWorks` is false when the local tier answers with an error. */
    method FindMissing(blobs: seq<Blob>, localWorks: bool, gap: Gap, fate: Fate) returns (r: Reply<seq<Blob>>)
      requires local.Valid() && remote.Valid()
      modifies this, local, remote
      ensures local.Valid() && remote.Valid() && Grows(old(remote.actions), remote.actions) && Grows(old(remote.blobs), remote.blobs)
      ensures r.Answer? && localWorks ==> r.value == Absent(blobs, old(local.blobs).Keys + remote.blobs.Keys)
      ensures r.Answer? && !localWorks ==> r.value == Absent(blobs, remote.blobs.Keys)
      ensures fate.Reached? && NoRepeats(blobs) ==> r.Answer?
    {
      var localMissing := blobs;
      if localWorks {
        localMissing := Missing(blobs, local.blobs.Keys);
        AbsentTwice(blobs, local.blobs.Keys, remote.blobs.Keys);
      }
      ghost var has := if localWorks then local.blobs.Keys else {};
      AbsentNothing(blobs);
      assert localMissing == Absent(blobs, has);
      AbsentKeepsApart(blobs, has);
      if localMissing == [] {
        NothingAbsent(blobs, has, remote.blobs.Keys);
        return Answer([]);
      }
      Pause(gap);
      var answer := AskRemote(localMissing, fate);
      AbsentKeepsApart(localMissing, remote.blobs.Keys);
      if answer.Failure? {
        warned := true;
        return Failure;
      }
      warned := false;
      AbsentTwice(blobs, has, remote.blobs.Keys);
      r := Answer(answer.value);
    }

    /** `get_action`: the local tier first, then the remote one; the client refuses an answer that is bound to another
        action. */
    method GetAction(namespace: Text, action: Digest, localWorks: bool, gap: Gap,
        fate: Fate) returns (r: Reply<Option<(ActionResult, Tier)>>)
      requires local.Valid() && remote.Valid()
      modifies this, local, remote
      ensures local.Valid() && remote.Valid() && Grows(old(remote.actions), remote.actions) && Grows(old(remote.blobs), remote.blobs)
      // a hit is the binding of the tier it names, and a remote one always has its bundle
      ensures r.Answer? && r.value.Some? && r.value.value.1 == Local ==>
                (namespace, action) in old(local.actions) && r.value.value.0 == old(local.actions)[(namespace, action)]
      ensures r.Answer? && r.value.Some? && r.value.value.1 == Remote ==>
                && r.value.value.0.action == action && remote.HasBundle(r.value.value.0)
                && (namespace, action.hash) in remote.actions && remote.actions[(namespace, action.hash)] == r.value.value.0
                && (localWorks ==> (namespace, action) !in old(local.actions))
      // a miss is a miss in every tier that answered
      ensures r == Answer(None) ==> (namespace, action.hash) !in remote.actions && (localWorks ==> (namespace, action) !in old(local.actions))
      // what was published before and not evicted is found
      ensures forall result: ActionResult ::
                result.action == action && localWorks && old(local.Bound(namespace, result)) ==> r == Answer(Some((result, Local)))
      ensures forall result: ActionResult :: result.action == action && fate.Reached? && !(localWorks && (namespace, action) in old(local.actions))
                               && RemoteKey(namespace, result) in old(remote.actions) && old(remote.actions)[RemoteKey(namespace, result)] == result
                               ==> r == Answer(Some((result, Remote)))
    {
      if localWorks && (namespace, action) in local.actions {
        return Answer(Some((local.actions[(namespace, action)], Local)));
      }
      Pause(gap);
      if fate.Lost? {
        warned := true;
        return Failure;
      }
      var key := (namespace, action.hash);
      if key !in remote.actions {
        warned := false;
        return Answer(None);
      }
      var result := remote.actions[key];
      if result.action != action {
        warned := true;
        return Failure;
      }
      warned := false;
      return Answer(Some((result, Remote)));
    }

    /** `read_blob`: bytes from the remote tier are returned only after the local tier has verified and stored them. */
    method ReadBlob(blob: Blob, before: Gap, fate: Fate, after: Gap) returns (r: Reply<Text>)
      requires local.Valid() && remote.Valid()
      modifies this, local, remote
      ensures local.Valid() && remote.Valid() && Grows(old(remote.actions), remote.actions) && Grows(old(remote.blobs), remote.blobs)
      ensures r.Answer? ==> local.genuine(blob, r.value) && blob in local.blobs && local.blobs[blob] == r.value
      ensures blob in old(local.blobs) ==> r == Answer(old(local.blobs)[blob])
      // it fails only for a reason: a remote tier out of reach or without the blob, a body that does not fit, or a later drop
      ensures fate.Reached? && blob in old(remote.blobs) && local.genuine(blob, old(remote.blobs)[blob]) && Drop(blob) !in after.local
              ==> r.Answer?
      ensures before == after == QUIET ==>
                (r.Answer? <==> blob in old(local.blobs)
                                || (fate.Reached? && blob in old(remote.blobs) && local.genuine(blob, old(remote.blobs)[blob])))
    {
      if blob in local.blobs {
        return Answer(local.blobs[blob]);
      }
      Pause(before);
      if fate.Lost? || blob !in remote.blobs {
        warned := true;
        return Failure;
      }
      var stored := local.WriteBlob(blob, remote.blobs[blob]);
      Pause(after);
      if stored.Failure? || blob !in local.blobs {
        warned := true;
        return Failure;
      }
      warned := false;
      return Answer(local.blobs[blob]);
    }

    /** The remote half of an action publication. */
    method SendAction(namespace: Text, result: ActionResult, fate: Fate) returns (r: Reply<Outcome>)
      requires remote.Valid()
      modifies this, remote
      ensures remote.Valid() && Grows(old(remote.actions), remote.actions) && remote.blobs == old(remote.blobs)
      ensures r.Answer? <==> fate.Reached?
      ensures r == Answer(Written) <==> fate.Reached? && remote.actions != old(remote.actions)
      ensures r.Answer? ==>
                (r.value != Conflict <==> RemoteKey(namespace, result) in remote.actions
                                          && remote.actions[RemoteKey(namespace, result)] == result && remote.HasBundle(result))
      ensures r.Answer? && remote.HasBundle(result) ==> RemoteKey(namespace, result) in remote.actions
      ensures r == Answer(Conflict) <==> fate.Reached? && old(remote.Refuses(namespace, result))
      ensures warned == r.Failure?
    {
      match fate {
        case Reached =>
          var o := remote.WriteAction(namespace, result);
          warned := false;
          return Answer(o);
        case Lost(applied) =>
          if applied {
            var _ := remote.WriteAction(namespace, result);
          }
          warned := true;
          return Failure;
      }
    }

    /** `write_action_if_absent`. */
    method WriteAction(namespace: Text, result: ActionResult, before: Gap, fate: Fate, after: Gap) returns (r: Reply<Outcome>)
      requires local.Valid() && remote.Valid()
      modifies this, local, remote
      ensures local.Valid() && remote.Valid() && Grows(old(remote.actions), remote.actions) && Grows(old(remote.blobs), remote.blobs)
      // a publication that is not refused leaves the local tier bound to exactly this result, except that a binding which was there
      // before is not looked at again: it is there at the end exactly if what the other users did leaves it there
      ensures r.Answer? && r.value != Conflict ==>
                (local.Bound(namespace, result) <==>
                 (old(local.Bound(namespace, result)) ==>
                  Replay(local.genuine, before.local + after.local, LocalKey(namespace, result), Some(result), old(local.blobs).Keys) == Some(result)))
      // undisturbed, it reports `Written` exactly when an answering tier gained the binding
      ensures before == after == QUIET ==>
                (r == Answer(Written) <==> r.Answer? && r.value != Conflict
                                           && (local.actions != old(local.actions) || (fate.Reached? && remote.actions != old(remote.actions))))
      // the remote tier is bound to it too when it could be reached
      ensures r.Answer? && r.value != Conflict && fate.Reached? ==>
                RemoteKey(namespace, result) in remote.actions && remote.actions[RemoteKey(namespace, result)] == result && remote.HasBundle(result)
      // it is refused exactly for a reason in one of the tiers, and fails exactly when the bundle is not there to bind
      ensures r == Answer(Conflict) <==>
                || (LocalKey(namespace, result) in old(local.actions) && !old(local.Bound(namespace, result)))
                || (fate.Reached? && remote.Refuses(namespace, result))
                || (local.HasBundle(result) && LocalKey(namespace, result) !in old(local.actions)
                    && LocalKey(namespace, result) in local.actions && !local.Bound(namespace, result))
      ensures r.Failure? <==>
                && LocalKey(namespace, result) !in old(local.actions) && !local.HasBundle(result)
                && !(fate.Reached? && remote.Refuses(namespace, result))
      // with no other client in between, the remote tier decides by what it held before
      ensures before.remote == [] && fate.Reached?
              && (LocalKey(namespace, result) in old(local.actions) ==> old(local.Bound(namespace, result)))
              ==> (remote.Refuses(namespace, result) <==> old(remote.Refuses(namespace, result)))
    {
      var key := LocalKey(namespace, result);
      var existing := key in local.actions;
      if existing && local.actions[key] != result {
        return Answer(Conflict);
      }
      Pause(before);
      ghost var midway, blobs := Binding(local.actions, key), local.blobs.Keys;
      assert midway == Replay(local.genuine, before.local, key, Binding(old(local.actions), key), old(local.blobs).Keys);
      var sent := SendAction(namespace, result, fate);
      if sent == Answer(Conflict) {
        return Answer(Conflict);
      }
      Pause(after);
      assert Binding(local.actions, key) == Replay(local.genuine, after.local, key, midway, blobs);
      ReplayAppend(local.genuine, before.local, after.local, key, Some(result), old(local.blobs).Keys);
      var o := Answer(AlreadyPresent);
      if !existing {
        o := local.WriteAction(namespace, result);
      }
      if o.Failure? || o.value == Conflict {
        return o;
      }
      return Answer(if o.value == Written || sent == Answer(Written) then Written else AlreadyPresent);
    }

    /** The remote half of a blob publication, after the local tier has verified it. */
    method SendBlob(blob: Blob, fate: Fate) returns (r: Reply<Outcome>)
      requires remote.Valid() && blob in local.blobs
      modifies this, remote
      ensures remote.Valid() && Grows(old(remote.blobs), remote.blobs) && remote.actions == old(remote.actions)
      ensures r.Answer? ==> fate.Reached? && blob in remote.blobs && (r.value != Conflict <==> remote.blobs[blob] == local.blobs[blob])
      ensures fate.Reached? && remote.Accepts(blob, local.blobs[blob]) ==> r.Answer?
      ensures r == Answer(Conflict) ==> blob in old(remote.blobs)
    {
      r := Failure;
      if fate.Reached? || fate.applied {
        r := remote.WriteBlob(blob, local.blobs[blob]);
      }
      warned := r.Failure? || fate.Lost?;
      if fate.Lost? {
        r := Failure;
      }
    }

    /** `write_blob_if_absent`: verified locally first, then sent to the remote tier if that lacks it. */
    method WriteBlob(blob: Blob, body: Text, before: Gap, ask: Fate, between: Gap, send: Fate) returns (r: Reply<Outcome>)
      requires local.Valid() && remote.Valid()
      requires forall b, t :: local.genuine(b, t) ==> remote.Accepts(b, t)
      modifies this, local, remote
      ensures local.Valid() && remote.Valid() && Grows(old(remote.actions), remote.actions) && Grows(old(remote.blobs), remote.blobs)
      ensures r.Answer? && r.value != Conflict && ask.Reached? && send.Reached? ==> blob in remote.blobs
      ensures r.Answer? && Drop(blob) !in before.local + between.local ==> blob in local.blobs
      ensures r == Answer(Conflict) ==> blob in remote.blobs && blob in local.blobs && remote.blobs[blob] != local.blobs[blob]
      // a conflict needs another client of the remote tier, and the outcome is otherwise that of the local tier
      ensures before.remote == between.remote == [] ==> r != Answer(Conflict)
      ensures r.Answer? && r.value != Conflict ==> (r.value == Written <==> blob !in old(local.blobs))
      // it fails exactly for a body that does not fit, or when the blob is dropped locally before it could be sent
      ensures r.Failure? ==>
                || (blob !in old(local.blobs) && !local.genuine(blob, body))
                || (ask.Reached? && blob !in old(remote.blobs) && Drop(blob) in before.local + between.local)
      ensures before.remote == [] ==>
                (r.Failure? <==>
                 || (blob !in old(local.blobs) && !local.genuine(blob, body))
                 || (ask.Reached? && blob !in old(remote.blobs)
                     && blob !in BlobsAfter(local.genuine, before.local + between.local, old(local.blobs).Keys + {blob})))
    {
      var o := local.WriteBlob(blob, body);
      if o.Failure? {
        return Failure;
      }
      assert local.blobs.Keys == old(local.blobs).Keys + {blob};
      Pause(before);
      ReplayAppend(local.genuine, before.local, between.local, ([], blob.digest), None, old(local.blobs).Keys + {blob});
      var missing := AskRemote([blob], ask);
      AskOne(blob, remote.blobs.Keys);
      if missing.Failure? || missing.value == [] {
        warned := missing.Failure?;
        return o;
      }
      Pause(between);
      if blob !in local.blobs {
        return Failure;
      }
      var sent := SendBlob(blob, send);
      if sent == Answer(Conflict) {
        return sent;
      }
      return o;
    }

    /** `commit_verified_hit`: a verified remote result replaces a different local one. */
    method CommitVerifiedHit(namespace: Text, result: ActionResult, before: Gap, after: Gap) returns (r: Reply<()>)
      requires local.Valid() && remote.Valid()
      modifies local, remote
      ensures local.Valid() && remote.Valid() && Grows(old(remote.actions), remote.actions) && Grows(old(remote.blobs), remote.blobs)
      ensures r.Answer? ==> local.Bound(namespace, result)
      ensures (!Rivals(after.local, namespace, result) && !Unbinds(after.local, LocalKey(namespace, result))
               && (result.bundle.Some? ==> result.bundle.value in old(local.blobs) && Drop(result.bundle.value) !in before.local + after.local))
              ==> r.Answer?
    {
      var first := local.WriteAction(namespace, result);
      if first != Answer(Conflict) {
        return if first.Failure? then Failure else Answer(());
      }
      Pause(before);
      local.QuarantineConflicting(namespace, result);
      Pause(after);
      var second := local.WriteAction(namespace, result);
      return if second.Failure? || second.value == Conflict then Failure else Answer(());
    }
  }

  lemma {:induction false} AbsentNothing(blobs: seq<Blob>)
    ensures Absent(blobs, {}) == blobs
  {
    if blobs != [] {
      AbsentNothing(blobs[1..]);
      assert [blobs[0]] + blobs[1..] == blobs;
    }
  }

  lemma {:induction false} AbsentKeepsApart(blobs: seq<Blob>, present: set<Blob>)
    ensures NoRepeats(blobs) ==> NoRepeats(Absent(blobs, present))
  {
    if blobs != [] {
      AbsentKeepsApart(blobs[1..], present);
      AbsentMembers(blobs[1..], present);
      if NoRepeats(blobs) {
        assert blobs[0] !in blobs[1..];
      }
    }
  }

  lemma NothingAbsent(blobs: seq<Blob>, local: set<Blob>, remote: set<Blob>)
    requires Absent(blobs, local) == []
    ensures Absent(blobs, local + remote) == []
  {
  }

  lemma AskOne(blob: Blob, present: set<Blob>)
    ensures Absent([blob], present) == (if blob in present then [] else [blob])
  {
  }

  /** Without a request that may unbind the key, the binding stays. */
  lemma {:induction false} ReplayKeeps(genuine: (Blob, Text) -> bool, script: seq<LocalRequest>, key: (Text, Digest),
      result: ActionResult,
                                       blobs: set<Blob>)
    requires !Unbinds(script, key)
    ensures Replay(genuine, script, key, Some(result), blobs) == Some(result)
  {
    if script != [] {
      assert !UnbindsOnce(script[0], key);
      assert forall i :: 0 <= i < |script[1..]| ==> script[1..][i] == script[i + 1];
      ReplayKeeps(genuine, script[1..], key, result, ReplayBlobs(genuine, script[0], blobs));
    }
  }

  /** Request `i` of the script publishes this result under the key while its bundle is at hand. */
  ghost predicate Republishes(genuine: (Blob, Text) -> bool, script: seq<LocalRequest>, i: nat, key: (Text, Digest),
      result: ActionResult, blobs: set<Blob>)
    requires i < |script|
  {
    && script[i].Publish? && script[i].result == result && LocalKey(script[i].namespace, result) == key
    && (result.bundle.Some? ==> result.bundle.value in BlobsAfter(genuine, script[..i], blobs))
  }

  /** A key that is bound after a script and was not before has been published by it. */
  lemma {:induction false} BoundByPublication(genuine: (Blob, Text) -> bool, script: seq<LocalRequest>, key: (Text, Digest),
      bound: Option<ActionResult>, result: ActionResult, blobs: set<Blob>)
    requires bound != Some(result) && Replay(genuine, script, key, bound, blobs) == Some(result)
    ensures exists i :: 0 <= i < |script| && Republishes(genuine, script, i, key, result, blobs)
  {
    var bound', blobs' := ReplayOne(script[0], key, bound, blobs), ReplayBlobs(genuine, script[0], blobs);
    if bound' == Some(result) {
      assert script[..0] == [];
      assert Republishes(genuine, script, 0, key, result, blobs);
    } else {
      BoundByPublication(genuine, script[1..], key, bound', result, blobs');
      var i :| 0 <= i < |script[1..]| && Republishes(genuine, script[1..], i, key, result, blobs');
      assert script[..i + 1][1..] == script[1..][..i] && script[..i + 1][0] == script[0];
      assert Republishes(genuine, script, i + 1, key, result, blobs);
    }
  }

  /** After an eviction the rest of the script decides as for a key that never was bound: only a publication of the same
      result while its bundle is at hand brings the binding back. */
  lemma EvictedBinding(genuine: (Blob, Text) -> bool, key: (Text, Digest), result: ActionResult,
      script: seq<LocalRequest>, blobs: set<Blob>)
    ensures Replay(genuine, [Evict(key)] + script, key, Some(result), blobs) == Replay(genuine, script, key, None, blobs)
    ensures Replay(genuine, [Evict(key)] + script, key, Some(result), blobs) == Some(result) ==>
              exists i :: 0 <= i < |script| && Republishes(genuine, script, i, key, result, blobs)
  {
    assert ([Evict(key)] + script)[1..] == script;
    if Replay(genuine, script, key, None, blobs) == Some(result) {
      BoundByPublication(genuine, script, key, None, result, blobs);
    }
  }

  /**
   * A publication that is not refused and leaves the local tier without the binding: the result was bound locally, and is
   * evicted while the remote tier is asked.
   */
  method EvictedPublication(genuine: (Blob, Text) -> bool, hash: Text -> Digest, namespace: Text, result: ActionResult)
    returns (r: Reply<Outcome>, bound: Option<ActionResult>)
    requires result.bundle.None?
    ensures r.Answer? && r.value != Conflict && bound != Some(result)
  {
    var local := new LocalStore(genuine);
    var remote := new ReferenceCache(hash);
    var store := new LayeredCacheStore(local, remote);
    var key := LocalKey(namespace, result);
    var _ := local.WriteAction(namespace, result);
    EvictedBinding(genuine, key, result, [], {});
    assert [Evict(key)] + [] == [Evict(key)];
    r := store.WriteAction(namespace, result, Gap([], [Evict(key)]), Reached, QUIET);
    bound := Binding(local.actions, key);
  }
}
