/** What the lifecycle recorder aggregates: remaining nodes, severity, and the originating failure. */
module Recorder {
  import opened Orders
  import opened Paths
  import opened Lifecycle

  type Scope = nat

  /** Declaration order is severity order. */
  datatype Status = Skipped | Success | Cancelled | Failed

  function Rank(s: Status): nat {
    match s
    case Skipped => 0
    case Success => 1
    case Cancelled => 2
    case Failed => 3
  }

  function Worse(a: Status, b: Status): Status { if Rank(a) >= Rank(b) then a else b }

  /** A failure with the moment it was observed. */
  datatype Timed = Timed(at: int, cancelled: bool, detail: Text)

  datatype Outcome = Outcome(status: Status, failure: Option<Timed>)

  /** The most severe of some statuses: an upper bound that is reached, with `Skipped` for none. */
  ghost predicate IsWorst(w: Status, ss: seq<Status>) {
    && (forall i :: 0 <= i < |ss| ==> Rank(ss[i]) <= Rank(w))
    && (w == Skipped || w in ss)
  }

  lemma WorstGrows(w: Status, ss: seq<Status>, s: Status)
    requires IsWorst(w, ss)
    ensures IsWorst(Worse(w, s), ss + [s])
  {
  }

  function Statuses(done: seq<Outcome>): (r: seq<Status>)
    ensures |r| == |done| && forall i :: 0 <= i < |r| ==> r[i] == done[i].status
  {
    seq(|done|, i requires 0 <= i < |done| => done[i].status)
  }

  // ----- failures

  /** A failure that is not a cancellation. */
  predicate Real(o: Outcome) { o.failure.Some? && !o.failure.value.cancelled }

  /** The first real failure in commit order, or else the first cancellation. */
  ghost predicate IsOrigin(f: Option<Timed>, done: seq<Outcome>) {
    if exists i :: 0 <= i < |done| && Real(done[i]) then
      exists i :: 0 <= i < |done| && Real(done[i]) && f == done[i].failure && forall k :: 0 <= k < i ==> !Real(done[k])
    else if exists i :: 0 <= i < |done| && done[i].failure.Some? then
      exists i :: 0 <= i < |done| && done[i].failure.Some? && f == done[i].failure && forall k :: 0 <= k < i ==> done[k].failure.None?
    else
      f == None
  }

  /** `should_record_failure`. */
  predicate ShouldRecord(recorded: Option<Timed>, failure: Timed) {
    recorded.None? || (recorded.value.cancelled && !failure.cancelled)
  }

  /** `record_timed_failure`. */
  function Record(recorded: Option<Timed>, failure: Option<Timed>): Option<Timed> {
    if failure.Some? && ShouldRecord(recorded, failure.value) then failure else recorded
  }

  lemma OriginKind(f: Option<Timed>, done: seq<Outcome>)
    requires IsOrigin(f, done)
    ensures f.None? <==> forall i :: 0 <= i < |done| ==> done[i].failure.None?
    ensures f.Some? && !f.value.cancelled <==> exists i :: 0 <= i < |done| && Real(done[i])
  {
  }

  /** Recording keeps the origin, whatever comes next. */
  lemma OriginGrows(f: Option<Timed>, done: seq<Outcome>, o: Outcome)
    requires IsOrigin(f, done)
    ensures IsOrigin(Record(f, o.failure), done + [o])
  {
    var more := done + [o];
    OriginKind(f, done);
    assert more[|done|] == o && forall i :: 0 <= i < |done| ==> more[i] == done[i];
    if i :| 0 <= i < |done| && Real(done[i]) && f == done[i].failure && forall k :: 0 <= k < i ==> !Real(done[k]) {
      assert Real(more[i]) && f == more[i].failure && forall k :: 0 <= k < i ==> !Real(more[k]);
    } else if Real(o) {
      assert Real(more[|done|]) && forall k :: 0 <= k < |done| ==> !Real(more[k]);
    } else if i :| 0 <= i < |done| && done[i].failure.Some? && f == done[i].failure && forall k :: 0 <= k < i ==> done[k].failure.None? {
      assert more[i].failure.Some? && f == more[i].failure && forall k :: 0 <= k < i ==> more[k].failure.None?;
    } else if o.failure.Some? {
      assert more[|done|].failure.Some? && forall k :: 0 <= k < |done| ==> more[k].failure.None?;
    }
  }

  /** Stamps do not go back in commit order. */
  ghost predicate Chronological(done: seq<Outcome>) {
    forall i, k :: 0 <= i < k < |done| && done[i].failure.Some? && done[k].failure.Some? ==> done[i].failure.value.at <= done[k].failure.value.at
  }

  /** No failure that counts is older than this one. */
  ghost predicate NoneEarlier(f: Timed, done: seq<Outcome>) {
    forall i :: 0 <= i < |done| && done[i].failure.Some? && (Real(done[i]) || f.cancelled) ==> f.at <= done[i].failure.value.at
  }

  /** A failure that competes for being the origin: every one, or only the real ones. */
  predicate Counting(o: Outcome, causes: bool) { Counts(o.failure, causes) }

  ghost predicate SomeReal(done: seq<Outcome>) {
    exists i :: 0 <= i < |done| && Real(done[i])
  }

  /** The first of them in commit order. */
  ghost predicate FirstCounting(done: seq<Outcome>, i: int, causes: bool) {
    0 <= i < |done| && Counting(done[i], causes) && forall k :: 0 <= k < i ==> !Counting(done[k], causes)
  }

  /** Nothing committed after the first one has an earlier stamp. */
  ghost predicate NotOvertaken(done: seq<Outcome>, causes: bool) {
    forall i, k :: FirstCounting(done, i, causes) && i < k < |done| && Counting(done[k], causes) ==>
      done[i].failure.value.at <= done[k].failure.value.at
  }

  /** The recorded origin is the first failure that counts. */
  lemma OriginIsFirst(f: Option<Timed>, done: seq<Outcome>) returns (i: nat)
    requires IsOrigin(f, done) && f.Some?
    ensures FirstCounting(done, i, SomeReal(done)) && f == done[i].failure && f.value.cancelled == !SomeReal(done)
    ensures forall k :: FirstCounting(done, k, SomeReal(done)) ==> k == i
  {
    if SomeReal(done) {
      i :| 0 <= i < |done| && Real(done[i]) && f == done[i].failure && forall k :: 0 <= k < i ==> !Real(done[k]);
    } else {
      i :| 0 <= i < |done| && done[i].failure.Some? && f == done[i].failure && forall k :: 0 <= k < i ==> done[k].failure.None?;
    }
  }

  /** The recorded origin of a scope is its earliest real failure, or its earliest cancellation if it has no real one, if and only
      if no failure of that kind committed after the first one has an earlier stamp. */
  lemma OriginIsEarliest(f: Option<Timed>, done: seq<Outcome>)
    requires IsOrigin(f, done) && f.Some?
    ensures NoneEarlier(f.value, done) <==> NotOvertaken(done, SomeReal(done))
  {
    var i := OriginIsFirst(f, done);
    if NotOvertaken(done, SomeReal(done)) {
      forall k | 0 <= k < |done| && done[k].failure.Some? && (Real(done[k]) || f.value.cancelled)
        ensures f.value.at <= done[k].failure.value.at
      {
        assert Counting(done[k], SomeReal(done));
      }
    }
  }

  /** Stamps that never go back in commit order are enough for that, but a late cancellation does no harm. */
  lemma ChronologicalIsEnough(done: seq<Outcome>)
    ensures Chronological(done) ==> NotOvertaken(done, SomeReal(done))
    ensures var overtaken := [Outcome(Failed, Some(Timed(2, false, []))), Outcome(Cancelled, Some(Timed(1, true, [])))];
            !Chronological(overtaken) && NotOvertaken(overtaken, SomeReal(overtaken))
  {
    var overtaken := [Outcome(Failed, Some(Timed(2, false, []))), Outcome(Cancelled, Some(Timed(1, true, [])))];
    assert Real(overtaken[0]) && overtaken[1].failure.value.at == 1;
  }

  /** Stamps are taken on entry but recorded at commit: of two overtaking completions the later stamp is kept. */
  lemma OvertakingKeepsLaterStamp()
    ensures var first, second := Timed(2, false, []), Timed(1, false, []);
            var done := [Outcome(Failed, Some(first)), Outcome(Failed, Some(second))];
            && Record(Record(None, Some(first)), Some(second)) == Some(first)
            && IsOrigin(Some(first), done) && !Chronological(done) && !NoneEarlier(first, done)
  {
    var first, second := Timed(2, false, []), Timed(1, false, []);
    var done := [Outcome(Failed, Some(first)), Outcome(Failed, Some(second))];
    assert Real(done[0]) && Real(done[1]) && done[0].failure == Some(first);
    assert done[1].failure.value.at == 1;
  }

  // ----- the recorder

  datatype ScopeState = ScopeState(remaining: nat, status: Status, lifecycle: Lifecycle, failure: Option<Timed>)

  const DEFAULT := ScopeState(0, Skipped, Planned, None)

  /** What happened to a scope: nodes bound to it, completions in commit order, statuses raised by shutdown. */
  datatype History = History(bound: nat, done: seq<Outcome>, raised: seq<Status>)

  ghost predicate Faithful(s: ScopeState, h: History) {
    && s.remaining + |h.done| == h.bound
    && IsWorst(s.status, Statuses(h.done) + h.raised)
    && IsOrigin(s.failure, h.done)
  }

  ghost predicate AllFaithful(states: map<Scope, ScopeState>, histories: map<Scope, History>) {
    && histories.Keys == states.Keys
    && forall s {:trigger Faithful(states[s], histories[s])} :: s in states ==> Faithful(states[s], histories[s])
  }

  lemma OneFaithfulChange(states: map<Scope, ScopeState>, histories: map<Scope, History>, s: Scope, state: ScopeState, h: History)
    requires AllFaithful(states, histories) && Faithful(state, h)
    ensures AllFaithful(states[s := state], histories[s := h])
  {
  }

  lemma StatusesGrow(done: seq<Outcome>, o: Outcome)
    ensures Statuses(done + [o]) == Statuses(done) + [o.status]
  {
  }

  lemma WorstAnyOrder(w: Status, a: seq<Status>, b: seq<Status>, s: Status)
    requires IsWorst(w, a + b)
    ensures IsWorst(Worse(w, s), (a + [s]) + b) && IsWorst(Worse(w, s), a + (b + [s]))
  {
    WorstGrows(w, a + b, s);
    assert (a + b) + [s] == a + (b + [s]);
    var c, d := (a + [s]) + b, a + b;
    forall i | 0 <= i < |c| ensures Rank(c[i]) <= Rank(Worse(w, s)) {
      assert c[i] == s || c[i] in d;
    }
    assert forall x :: x in d ==> x in c;
    assert s in c;
  }

  /** One committed completion. */
  function Committed(s: ScopeState, o: Outcome): ScopeState
    requires s.remaining > 0
  {
    ScopeState(s.remaining - 1, Worse(s.status, o.status), if s.remaining == 1 then PublishingFinish else s.lifecycle, Record(s.failure, o.failure))
  }

  lemma CommitIsFaithful(s: ScopeState, h: History, o: Outcome)
    requires Faithful(s, h) && s.remaining > 0
    ensures Faithful(Committed(s, o), h.(done := h.done + [o]))
  {
    StatusesGrow(h.done, o);
    WorstAnyOrder(s.status, Statuses(h.done), h.raised, o.status);
    OriginGrows(s.failure, h.done, o);
  }

  /** `remaining_status`: work that never started is not failed by a sibling's failure. */
  function RemainingStatus(status: Status, lifecycle: Lifecycle): Status {
    if status == Failed && lifecycle == Declared then Skipped else status
  }

  function SweptState(s: ScopeState, status: Status): ScopeState {
    if s.lifecycle == Declared || s.lifecycle == Started then
      s.(lifecycle := PublishingFinish, status := Worse(s.status, RemainingStatus(status, s.lifecycle)))
    else s
  }

  function SweptHistory(s: ScopeState, h: History, status: Status): History {
    if s.lifecycle == Declared || s.lifecycle == Started then h.(raised := h.raised + [RemainingStatus(status, s.lifecycle)]) else h
  }

  lemma SweepIsFaithful(s: ScopeState, h: History, status: Status)
    requires Faithful(s, h)
    ensures Faithful(SweptState(s, status), SweptHistory(s, h, status))
  {
    if s.lifecycle == Declared || s.lifecycle == Started {
      WorstAnyOrder(s.status, Statuses(h.done), h.raised, RemainingStatus(status, s.lifecycle));
    }
  }

  /** Every status that shutdown raised is matched by some node. */
  ghost predicate RaisedCovered(h: History) {
    forall r :: r in h.raised ==> r == Skipped || exists i :: 0 <= i < |h.done| && Rank(h.done[i].status) >= Rank(r)
  }

  /** A scope carries the most severe status of its nodes if and only if every status that shutdown raised is matched by a node. */
  lemma StatusIsWorstNode(s: ScopeState, h: History)
    requires Faithful(s, h)
    ensures IsWorst(s.status, Statuses(h.done)) <==> RaisedCovered(h)
    ensures s.remaining == 0 <==> |h.done| == h.bound
  {
    if IsWorst(s.status, Statuses(h.done)) {
      forall r | r in h.raised && r != Skipped ensures exists i :: 0 <= i < |h.done| && Rank(h.done[i].status) >= Rank(r) {
        WorstCoversRaised(s, h, r);
      }
    }
    if RaisedCovered(h) {
      CoveredIsWorst(s, h);
    }
  }

  lemma WorstCoversRaised(s: ScopeState, h: History, r: Status)
    requires Faithful(s, h) && IsWorst(s.status, Statuses(h.done)) && r in h.raised && r != Skipped
    ensures exists i :: 0 <= i < |h.done| && Rank(h.done[i].status) >= Rank(r)
  {
    var nodes := Statuses(h.done);
    assert r in nodes + h.raised;
    var i :| 0 <= i < |nodes| && nodes[i] == s.status;
    assert Rank(h.done[i].status) >= Rank(r);
  }

  lemma CoveredIsWorst(s: ScopeState, h: History)
    requires Faithful(s, h) && RaisedCovered(h)
    ensures IsWorst(s.status, Statuses(h.done))
  {
    var nodes := Statuses(h.done);
    var all := nodes + h.raised;
    assert forall i :: 0 <= i < |nodes| ==> all[i] == nodes[i];
    if s.status != Skipped && s.status in h.raised {
      var i :| 0 <= i < |h.done| && Rank(h.done[i].status) >= Rank(s.status);
      assert all[i] == nodes[i] == s.status;
    }
  }

  predicate ActiveState(s: ScopeState) { s.lifecycle == Declared || s.lifecycle == Started }

  /** The first `n` scopes are swept, the others untouched. */
  ghost predicate SweptUpTo(states: map<Scope, ScopeState>, before: map<Scope, ScopeState>, order: seq<Scope>, n: nat,
      status: Status)
    requires n <= |order|
  {
    && states.Keys == before.Keys
    && forall k :: 0 <= k < |order| ==>
         && order[k] in states
         && states[order[k]] == if k < n then SweptState(before[order[k]], status) else before[order[k]]
  }

  /** The histories of the first `n` scopes record what was raised. */
  ghost predicate RaisedUpTo(histories: map<Scope, History>, earlier: map<Scope, History>, before: map<Scope, ScopeState>,
                             order: seq<Scope>, n: nat, status: Status)
    requires n <= |order|
  {
    forall k :: 0 <= k < |order| ==>
      && order[k] in histories && order[k] in earlier && order[k] in before
      && histories[order[k]] == if k < n then SweptHistory(before[order[k]], earlier[order[k]], status) else earlier[order[k]]
  }

  lemma RaisedOneMore(histories: map<Scope, History>, earlier: map<Scope, History>, before: map<Scope, ScopeState>,
                      order: seq<Scope>, n: nat, status: Status)
    requires n < |order| && Distinct(order) && RaisedUpTo(histories, earlier, before, order, n, status)
    ensures RaisedUpTo(histories[order[n] := SweptHistory(before[order[n]], histories[order[n]], status)], earlier, before, order, n + 1, status)
  {
  }

  lemma SweptOneMore(states: map<Scope, ScopeState>, before: map<Scope, ScopeState>, order: seq<Scope>, n: nat, status: Status)
    requires n < |order| && Distinct(order) && SweptUpTo(states, before, order, n, status)
    ensures SweptUpTo(states[order[n] := SweptState(states[order[n]], status)], before, order, n + 1, status)
  {
  }

  /** The finishes that shutdown publishes: one for each active scope, in declaration order. */
  function PendingOf(order: seq<Scope>, states: map<Scope, ScopeState>, status: Status): seq<(Scope, Status)>
    requires forall s :: s in order ==> s in states
  {
    if order == [] then []
    else
      var n := |order| - 1;
      PendingOf(order[..n], states, status)
      + if ActiveState(states[order[n]]) then [(order[n], SweptState(states[order[n]], status).status)] else []
  }

  lemma PendingOneMore(order: seq<Scope>, states: map<Scope, ScopeState>, n: nat, status: Status)
    requires n < |order| && forall s :: s in order ==> s in states
    ensures PendingOf(order[..n + 1], states, status) == PendingOf(order[..n], states, status)
              + if ActiveState(states[order[n]]) then [(order[n], SweptState(states[order[n]], status).status)] else []
  {
    assert order[..n + 1][..n] == order[..n];
  }

  ghost predicate PendingUpTo(states: map<Scope, ScopeState>, before: map<Scope, ScopeState>, order: seq<Scope>,
      n: nat, status: Status, pending: seq<(Scope, Status)>)
    requires n <= |order|
  {
    && (forall s :: s in order ==> s in before)
    && SweptUpTo(states, before, order, n, status)
    && pending == PendingOf(order[..n], before, status)
  }

  lemma SweepStart(states: map<Scope, ScopeState>, order: seq<Scope>, status: Status)
    requires forall s :: s in order ==> s in states
    ensures PendingUpTo(states, states, order, 0, status, [])
  {
  }

  lemma {:induction false} PendingMembers(order: seq<Scope>, states: map<Scope, ScopeState>, status: Status, s: Scope, t: Status)
    requires forall x :: x in order ==> x in states
    ensures (s, t) in PendingOf(order, states, status) <==> s in order && ActiveState(states[s]) && t == SweptState(states[s], status).status
  {
    if order != [] {
      PendingMembers(order[..|order| - 1], states, status, s, t);
    }
  }

  predicate Counts(f: Option<Timed>, causes: bool) { f.Some? && (causes ==> !f.value.cancelled) }

  /** The run's failure as `failure` selects it among the scopes' recorded origins. */
  ghost predicate Selected(states: map<Scope, ScopeState>, r: Option<Timed>) {
    && (r.Some? ==> exists s :: s in states && states[s].failure == r)
    && (forall s :: s in states && Counts(states[s].failure, true) ==> r.Some? && !r.value.cancelled && r.value.at <= states[s].failure.value.at)
    && (forall s :: s in states && states[s].failure.Some? ==> r.Some? && (r.value.cancelled ==> r.value.at <= states[s].failure.value.at))
  }

  lemma RecordedIsCommitted(s: ScopeState, h: History)
    requires Faithful(s, h)
    ensures s.failure.Some? <==> exists i :: 0 <= i < |h.done| && h.done[i].failure.Some?
    ensures Counts(s.failure, true) <==> exists i :: 0 <= i < |h.done| && Real(h.done[i])
    ensures s.failure.Some? ==> exists i :: 0 <= i < |h.done| && h.done[i].failure == s.failure
  {
  }

  /** No failure of the run that counts has an earlier stamp than every scope's first one. */
  ghost predicate RunNotOvertaken(histories: map<Scope, History>, causes: bool) {
    forall s, k :: s in histories && 0 <= k < |histories[s].done| && Counting(histories[s].done[k], causes) ==>
      SomeFirstAtMost(histories, causes, histories[s].done[k].failure.value.at)
  }

  /** Some scope's first failure that counts is not later than this. */
  ghost predicate SomeFirstAtMost(histories: map<Scope, History>, causes: bool, at: int) {
    exists t, i :: t in histories && FirstCounting(histories[t].done, i, causes) && histories[t].done[i].failure.value.at <= at
  }

  ghost predicate EarliestOverall(histories: map<Scope, History>, f: Timed) {
    forall s :: s in histories ==> NoneEarlier(f, histories[s].done)
  }

  /** What the selection means in terms of the scopes' first failures. */
  lemma SelectedFirst(states: map<Scope, ScopeState>, histories: map<Scope, History>, r: Timed, t: Scope, i: nat)
    requires AllFaithful(states, histories) && Selected(states, Some(r)) && t in states
    requires FirstCounting(histories[t].done, i, !r.cancelled)
    requires r.cancelled ==> !SomeReal(histories[t].done)
    ensures r.at <= histories[t].done[i].failure.value.at
  {
    assert Faithful(states[t], histories[t]);
    RecordedIsCommitted(states[t], histories[t]);
    assert Counting(histories[t].done[i], false);
    assert !r.cancelled ==> Real(histories[t].done[i]);
    var k := OriginIsFirst(states[t].failure, histories[t].done);
  }

  lemma SelectedIsSomeFirst(states: map<Scope, ScopeState>, histories: map<Scope, History>, r: Timed)
    requires AllFaithful(states, histories) && Selected(states, Some(r)) && NoRealIfCancelled(histories, r)
    ensures SomeFirstAtMost(histories, !r.cancelled, r.at)
  {
    var s :| s in states && states[s].failure == Some(r);
    assert Faithful(states[s], histories[s]);
    var i := OriginIsFirst(states[s].failure, histories[s].done);
    assert s in histories && FirstCounting(histories[s].done, i, !r.cancelled);
  }

  ghost predicate NoRealIfCancelled(histories: map<Scope, History>, r: Timed) {
    forall s :: s in histories && r.cancelled ==> !SomeReal(histories[s].done)
  }

  lemma SelectedReal(states: map<Scope, ScopeState>, histories: map<Scope, History>, r: Timed)
    requires AllFaithful(states, histories) && Selected(states, Some(r))
    ensures NoRealIfCancelled(histories, r)
  {
    forall s | s in histories && r.cancelled ensures !SomeReal(histories[s].done) {
      assert Faithful(states[s], histories[s]);
      RecordedIsCommitted(states[s], histories[s]);
    }
  }

  /** The selected failure is the earliest one that counts in the whole run if and only if no failure that counts has an earlier
      stamp than every scope's first one. */
  lemma SelectedIsEarliest(states: map<Scope, ScopeState>, histories: map<Scope, History>, r: Timed)
    requires AllFaithful(states, histories) && Selected(states, Some(r))
    ensures EarliestOverall(histories, r) <==> RunNotOvertaken(histories, !r.cancelled)
  {
    SelectedReal(states, histories, r);
    if EarliestOverall(histories, r) {
      SelectedIsSomeFirst(states, histories, r);
      var t, i :| t in histories && FirstCounting(histories[t].done, i, !r.cancelled) && histories[t].done[i].failure.value.at <= r.at;
      forall s, k | s in histories && 0 <= k < |histories[s].done| && Counting(histories[s].done[k], !r.cancelled)
        ensures SomeFirstAtMost(histories, !r.cancelled, histories[s].done[k].failure.value.at)
      {
        assert NoneEarlier(r, histories[s].done);
      }
    }
    if RunNotOvertaken(histories, !r.cancelled) {
      forall s | s in histories ensures NoneEarlier(r, histories[s].done) { ScopeNoneEarlier(states, histories, r, s); }
    }
  }

  lemma ScopeNoneEarlier(states: map<Scope, ScopeState>, histories: map<Scope, History>, r: Timed, s: Scope)
    requires AllFaithful(states, histories) && Selected(states, Some(r)) && NoRealIfCancelled(histories, r)
    requires RunNotOvertaken(histories, !r.cancelled) && s in histories
    ensures NoneEarlier(r, histories[s].done)
  {
    var done := histories[s].done;
    forall k | 0 <= k < |done| && done[k].failure.Some? && (Real(done[k]) || r.cancelled) ensures r.at <= done[k].failure.value.at {
      assert Counting(done[k], !r.cancelled);
      SelectedAtMost(states, histories, r, done[k].failure.value.at);
    }
  }

  lemma SelectedAtMost(states: map<Scope, ScopeState>, histories: map<Scope, History>, r: Timed, at: int)
    requires AllFaithful(states, histories) && Selected(states, Some(r)) && NoRealIfCancelled(histories, r)
    requires SomeFirstAtMost(histories, !r.cancelled, at)
    ensures r.at <= at
  {
    var t, i :| t in histories && FirstCounting(histories[t].done, i, !r.cancelled) && histories[t].done[i].failure.value.at <= at;
    SelectedFirst(states, histories, r, t, i);
  }

  /** Every scope is as `new` leaves it, with one node per binding. */
  ghost predicate AllCounted(states: map<Scope, ScopeState>, histories: map<Scope, History>, counts: multiset<Scope>) {
    && histories.Keys == states.Keys
    && forall s :: s in states ==> states[s] == DEFAULT.(remaining := counts[s]) && histories[s] == History(counts[s], [], [])
  }

  lemma CountedWithDefault(states: map<Scope, ScopeState>, histories: map<Scope, History>, counts: multiset<Scope>, b: Scope)
    requires AllCounted(states, histories, counts) && (b !in states ==> counts[b] == 0)
    ensures b !in states ==> AllCounted(states[b := DEFAULT], histories[b := History(0, [], [])], counts)
  {
  }

  lemma CountedChange(states: map<Scope, ScopeState>, histories: map<Scope, History>, counts: multiset<Scope>,
      b: Scope, state: ScopeState, h: History)
    requires AllCounted(states, histories, counts) && b in states
    requires state == DEFAULT.(remaining := counts[b] + 1) && h == History(counts[b] + 1, [], [])
    ensures AllCounted(states[b := state], histories[b := h], counts + multiset{b})
  {
  }

  class ExecutionRecorder {
    var order: seq<Scope>
    var states: map<Scope, ScopeState>
    ghost var histories: map<Scope, History>

    ghost predicate Valid()
      reads this
    {
      && Distinct(order)
      && (forall s :: s in order <==> s in states)
      && AllFaithful(states, histories)
    }

    /** `ExecutionRecorder::new`: scopes in declaration order, then one node per binding. */
    constructor (scopes: seq<Scope>, bindings: seq<Scope>)
      ensures Valid()
      ensures forall s :: s in states <==> s in scopes || s in bindings
      ensures AllCounted(states, histories, multiset(bindings))
    {
      order, states, histories := [], map[], map[];
      new;
      DeclareScopes(scopes);
      BindNodes(bindings);
    }

    method DeclareScopes(scopes: seq<Scope>)
      requires Valid() && states == map[]
      modifies this
      ensures Valid() && (forall s :: s in states <==> s in scopes) && AllCounted(states, histories, multiset{})
    {
      for i := 0 to |scopes|
        invariant Valid() && (forall s :: s in states <==> s in scopes[..i]) && AllCounted(states, histories, multiset{})
      {
        Ensure(scopes[i]);
        assert scopes[..i + 1] == scopes[..i] + [scopes[i]];
      }
      assert scopes[..|scopes|] == scopes;
    }

    method BindNodes(bindings: seq<Scope>)
      requires Valid() && AllCounted(states, histories, multiset{})
      modifies this
      ensures Valid() && (forall s :: s in states <==> s in old(states) || s in bindings)
      ensures AllCounted(states, histories, multiset(bindings))
    {
      for i := 0 to |bindings|
        invariant Valid() && (forall s :: s in states <==> s in old(states) || s in bindings[..i])
        invariant AllCounted(states, histories, multiset(bindings[..i]))
      {
        assert bindings[..i + 1] == bindings[..i] + [bindings[i]];
        BindNode(bindings[i], multiset(bindings[..i]));
      }
      assert bindings[..|bindings|] == bindings;
    }

    /** `entry(scope).or_default().remaining += 1`. */
    method BindNode(b: Scope, ghost counts: multiset<Scope>)
      requires Valid() && AllCounted(states, histories, counts) && (b !in states ==> counts[b] == 0)
      modifies this
      ensures Valid() && states.Keys == old(states).Keys + {b}
      ensures AllCounted(states, histories, counts + multiset{b})
    {
      CountedWithDefault(states, histories, counts, b);
      Ensure(b);
      Increment(b, counts);
    }

    method Increment(b: Scope, ghost counts: multiset<Scope>)
      requires Valid() && AllCounted(states, histories, counts) && b in states
      modifies this`states, this`histories
      ensures Valid() && states.Keys == old(states).Keys
      ensures AllCounted(states, histories, counts + multiset{b})
    {
      var more := states[b].(remaining := states[b].remaining + 1);
      ghost var h := History(counts[b] + 1, [], []);
      assert Statuses([]) + [] == [];
      assert Faithful(more, h);
      OneFaithfulChange(states, histories, b, more, h);
      CountedChange(states, histories, counts, b, more, h);
      states := states[b := more];
      histories := histories[b := h];
    }

    /** `entry(scope).or_default()`. */
    method Ensure(s: Scope)
      requires Valid()
      modifies this
      ensures Valid()
      ensures if s in old(states) then states == old(states) && histories == old(histories)
              else states == old(states)[s := DEFAULT] && histories == old(histories)[s := History(0, [], [])]
    {
      if s !in states {
        OneFaithfulChange(states, histories, s, DEFAULT, History(0, [], []));
        order := order + [s];
        states := states[s := DEFAULT];
        histories := histories[s := History(0, [], [])];
      }
    }

    /** The committing section of `complete`: `None` for the source's three errors, else the finish to publish, if any. */
    method Commit(s: Scope, o: Outcome) returns (r: Option<Option<Status>>)
      requires Valid()
      modifies this`states, this`histories
      ensures Valid()
      ensures r.Some? <==> s in old(states) && old(states)[s].lifecycle == Started && old(states)[s].remaining > 0
      ensures r.None? ==> states == old(states) && histories == old(histories)
      ensures r.Some? ==>
                && states == old(states)[s := Committed(old(states)[s], o)]
                && histories == old(histories)[s := old(histories)[s].(done := old(histories)[s].done + [o])]
      ensures r.Some? ==> (r.value.Some? <==> states[s].remaining == 0)
      ensures r.Some? && r.value.Some? ==>
                && r.value.value == states[s].status && |histories[s].done| == histories[s].bound
                && (IsWorst(r.value.value, Statuses(histories[s].done)) <==> RaisedCovered(histories[s]))
      ensures r.Some? && r.value.None? ==> |histories[s].done| < histories[s].bound
    {
      if s !in states || states[s].lifecycle != Started || states[s].remaining == 0 {
        return None;
      }
      assert Faithful(states[s], histories[s]);
      CommitIsFaithful(states[s], histories[s], o);
      OneFaithfulChange(states, histories, s, Committed(states[s], o), histories[s].(done := histories[s].done + [o]));
      states := states[s := Committed(states[s], o)];
      histories := histories[s := histories[s].(done := histories[s].done + [o])];
      if states[s].remaining == 0 {
        assert Faithful(states[s], histories[s]);
        StatusIsWorstNode(states[s], histories[s]);
        return Some(Some(states[s].status));
      }
      return Some(None);
    }

    /** The lifecycle writes of `declare`, `start_scope` and `publish_scope_finish`. */
    method Enter(s: Scope, l: Lifecycle)
      requires Valid() && s in states
      modifies this`states
      ensures Valid() && states == old(states)[s := old(states)[s].(lifecycle := l)]
    {
      assert Faithful(states[s], histories[s]);
      OneFaithfulChange(states, histories, s, states[s].(lifecycle := l), histories[s]);
      assert histories[s := histories[s]] == histories;
      states := states[s := states[s].(lifecycle := l)];
    }

    /** The second half of `publish_scope_finish`: commit an accepted finish, or restore the previous state. */
    method Publish(s: Scope, previous: Lifecycle, accepted: bool)
      requires Valid() && s in states && states[s].lifecycle == PublishingFinish
      modifies this`states
      ensures Valid() && states == old(states)[s := old(states)[s].(lifecycle := if accepted then Finished else previous)]
    {
      Enter(s, if accepted then Finished else previous);
    }

    /** The reserving section of `finish_remaining`, for every scope that is declared or started. */
    method Sweep(status: Status) returns (pending: seq<(Scope, Status)>)
      requires Valid()
      modifies this`states, this`histories
      ensures Valid() && order == old(order)
      ensures PendingUpTo(states, old(states), order, |order|, status, pending)
      ensures RaisedUpTo(histories, old(histories), old(states), order, |order|, status)
    {
      pending := [];
      ghost var before, earlier := states, histories;
      SweepStart(states, order, status);
      for i := 0 to |order|
        invariant Valid() && PendingUpTo(states, before, order, i, status, pending)
        invariant RaisedUpTo(histories, earlier, before, order, i, status)
      {
        pending := SweepAt(i, status, before, earlier, pending);
      }
    }

    method SweepAt(i: nat, status: Status, ghost before: map<Scope, ScopeState>, ghost earlier: map<Scope, History>,
                   pending: seq<(Scope, Status)>)
      returns (more: seq<(Scope, Status)>)
      requires Valid() && i < |order| && PendingUpTo(states, before, order, i, status, pending)
      requires RaisedUpTo(histories, earlier, before, order, i, status)
      modifies this`states, this`histories
      ensures Valid() && PendingUpTo(states, before, order, i + 1, status, more)
      ensures RaisedUpTo(histories, earlier, before, order, i + 1, status)
    {
      var s := order[i];
      SweptOneMore(states, before, order, i, status);
      PendingOneMore(order, before, i, status);
      RaisedOneMore(histories, earlier, before, order, i, status);
      var swept := SweepOne(s, status);
      more := if swept then pending + [(s, states[s].status)] else pending;
    }

    method SweepOne(s: Scope, status: Status) returns (swept: bool)
      requires Valid() && s in states
      modifies this`states, this`histories
      ensures Valid() && states == old(states)[s := SweptState(old(states)[s], status)]
      ensures histories == old(histories)[s := SweptHistory(old(states)[s], old(histories)[s], status)]
      ensures swept == ActiveState(old(states)[s])
    {
      assert Faithful(states[s], histories[s]);
      SweepIsFaithful(states[s], histories[s], status);
      OneFaithfulChange(states, histories, s, SweptState(states[s], status), SweptHistory(states[s], histories[s], status));
      swept := ActiveState(states[s]);
      histories := histories[s := SweptHistory(states[s], histories[s], status)];
      states := states[s := SweptState(states[s], status)];
    }

    /** `min_by_key` over the recorded failures, without cancellations if `causes`. */
    method Earliest(causes: bool) returns (r: Option<Timed>)
      requires Valid()
      ensures r.Some? ==> exists s :: s in states && states[s].failure == r && Counts(r, causes)
      ensures forall s :: s in states && Counts(states[s].failure, causes) ==> r.Some? && r.value.at <= states[s].failure.value.at
    {
      r := None;
      for i := 0 to |order|
        invariant r.Some? ==> exists s :: s in states && states[s].failure == r && Counts(r, causes)
        invariant forall k :: 0 <= k < i && Counts(states[order[k]].failure, causes) ==> r.Some? && r.value.at <= states[order[k]].failure.value.at
      {
        var f := states[order[i]].failure;
        if Counts(f, causes) && (r.None? || f.value.at < r.value.at) {
          r := f;
        }
      }
    }

    /** `failure`: a recorded real failure wins over every cancellation. */
    method Failure() returns (r: Option<Timed>)
      requires Valid()
      ensures r.None? <==> forall s, i :: s in states && 0 <= i < |histories[s].done| ==> histories[s].done[i].failure.None?
      ensures r.Some? && r.value.cancelled ==> forall s, i :: s in states && 0 <= i < |histories[s].done| ==> !Real(histories[s].done[i])
      ensures r.Some? ==> exists s, i :: s in states && 0 <= i < |histories[s].done| && histories[s].done[i].failure == r
      ensures r.Some? ==> (EarliestOverall(histories, r.value) <==> RunNotOvertaken(histories, !r.value.cancelled))
    {
      r := Earliest(true);
      if r.None? {
        r := Earliest(false);
      }
      assert Selected(states, r);
      forall s | s in states
        ensures r.None? ==> forall i :: 0 <= i < |histories[s].done| ==> histories[s].done[i].failure.None?
        ensures r.Some? && r.value.cancelled ==> forall i :: 0 <= i < |histories[s].done| ==> !Real(histories[s].done[i])
      {
        assert Faithful(states[s], histories[s]);
        RecordedIsCommitted(states[s], histories[s]);
      }
      if r.Some? {
        SelectedIsEarliest(states, histories, r.value);
        ghost var s :| s in states && states[s].failure == r;
        assert Faithful(states[s], histories[s]);
        RecordedIsCommitted(states[s], histories[s]);
      }
    }
  }

  /**
   * The failing run, on any recorder with a started scope that waits for one node and whose nodes all succeeded: shutdown sweeps,
   * the sink rejects its finish, and the last node succeeds. The scope then finishes as failed.
   */
  method RejectedShutdownRaisesStatus(recorder: ExecutionRecorder, s: Scope) returns (finish: Option<Option<Status>>)
    requires recorder.Valid() && s in recorder.states && recorder.states[s].lifecycle == Started && recorder.states[s].remaining == 1
    requires forall i :: 0 <= i < |recorder.histories[s].done| ==> recorder.histories[s].done[i].status == Success
    modifies recorder
    ensures recorder.Valid() && finish == Some(Some(Failed)) && s in recorder.histories
    ensures |recorder.histories[s].done| == recorder.histories[s].bound
    ensures forall i :: 0 <= i < |recorder.histories[s].done| ==> recorder.histories[s].done[i].status == Success
    ensures !RaisedCovered(recorder.histories[s])
  {
    SweepScope(recorder, s, Failed);
    recorder.Publish(s, Started, false);
    ghost var h := recorder.histories[s];
    finish := recorder.Commit(s, Outcome(Success, None));
    RaisedStays(h, recorder.histories[s]);
  }

  lemma RaisedStays(h: History, after: History)
    requires h.raised != [] && h.raised[|h.raised| - 1] == Failed && after.raised == h.raised
    requires forall i :: 0 <= i < |after.done| ==> after.done[i].status == Success
    ensures !RaisedCovered(after)
  {
    assert Failed in after.raised;
  }

  /** What a sweep does to one scope. */
  method SweepScope(recorder: ExecutionRecorder, s: Scope, status: Status)
    requires recorder.Valid() && s in recorder.states
    modifies recorder
    ensures recorder.Valid() && s in recorder.states && s in recorder.histories
    ensures recorder.states[s] == SweptState(old(recorder.states[s]), status)
    ensures recorder.histories[s] == SweptHistory(old(recorder.states[s]), old(recorder.histories[s]), status)
  {
    ghost var k :| 0 <= k < |recorder.order| && recorder.order[k] == s;
    var _ := recorder.Sweep(status);
    assert recorder.order[k] == s;
  }

  /** Such a recorder exists: one scope with one node, declared and started. */
  method RejectedShutdownRun() returns (finish: Option<Option<Status>>)
    ensures finish == Some(Some(Failed))
  {
    var recorder := new ExecutionRecorder([0], [0]);
    recorder.Enter(0, Declared);
    recorder.Enter(0, Started);
    finish := RejectedShutdownRaisesStatus(recorder, 0);
  }
}
