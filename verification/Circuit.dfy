/** The per-client circuit breaker, against the log of the operations that passed through it. */
module Circuit {
  import opened Paths
  import opened Bytes

  const MAX_U32 := TWO32 - 1

  /** What callers see: a permit with its generation, a refusal, and the outcome of an operation. */
  datatype Event =
    | Granted(generation: nat, now: int)
    | Refused(now: int)
    | Succeeded(generation: nat)
    | Failed(generation: nat, now: int)

  datatype Config = Config(threshold: nat, openFor: nat)

  /** Failures of a generation since its last success. */
  function Streak(log: seq<Event>, g: nat): nat {
    if log == [] then 0
    else
      var before := Streak(log[..|log| - 1], g);
      match log[|log| - 1]
      case Failed(h, _) => if h == g then before + 1 else before
      case Succeeded(h) => if h == g then 0 else before
      case _ => before
  }

  /** The circuit as the log alone determines it. */
  datatype Phase = Closed(generation: nat) | Open(generation: nat, deadline: int)

  function Next(c: Config, log: seq<Event>, p: Phase, e: Event): Phase {
    match e
    case Failed(g, now) =>
      if p == Closed(g) && Streak(log + [e], g) >= c.threshold then Open(g + 1, now + c.openFor) else p
    case Granted(_, _) => if p.Open? then Closed(p.generation + 1) else p
    case _ => p
  }

  function Ideal(c: Config, log: seq<Event>): Phase {
    if log == [] then Closed(0)
    else
      var before := log[..|log| - 1];
      Next(c, before, Ideal(c, before), log[|log| - 1])
  }

  predicate HasPermit(log: seq<Event>, g: nat) {
    exists i :: 0 <= i < |log| && log[i].Granted? && log[i].generation == g
  }

  /** Outcomes belong to granted permits; a grant carries the generation it leaves behind; a refusal has a reason. */
  predicate Plausible(c: Config, log: seq<Event>, e: Event) {
    match e
    case Granted(g, now) => (Ideal(c, log).Open? ==> Ideal(c, log).deadline <= now) && g == Ideal(c, log + [e]).generation
    case Refused(now) => Ideal(c, log).Open? && Ideal(c, log).deadline > now
    case Succeeded(g) => HasPermit(log, g)
    case Failed(g, _) => HasPermit(log, g)
  }

  ghost predicate History(c: Config, log: seq<Event>) {
    forall n :: 0 <= n < |log| ==> Plausible(c, log[..n], log[n])
  }

  lemma Extend(c: Config, log: seq<Event>, e: Event)
    ensures (log + [e])[..|log|] == log
    ensures Ideal(c, log + [e]) == Next(c, log, Ideal(c, log), e)
    ensures History(c, log) && Plausible(c, log, e) ==> History(c, log + [e])
  {
    var more := log + [e];
    assert more[..|log|] == log;
    if History(c, log) && Plausible(c, log, e) {
      forall n | 0 <= n < |more| ensures Plausible(c, more[..n], more[n]) {
        assert n < |log| ==> more[..n] == log[..n];
      }
    }
  }

  lemma HistoryPrefix(c: Config, log: seq<Event>, n: nat)
    requires History(c, log) && n <= |log|
    ensures History(c, log[..n])
  {
    forall k | 0 <= k < n ensures Plausible(c, log[..n][..k], log[..n][k]) {
      assert log[..n][..k] == log[..k];
    }
  }

  /** Permits never run ahead of the circuit, and an open circuit has none of its generation outstanding. */
  lemma {:induction false} PermitsAreOlder(c: Config, log: seq<Event>, g: nat)
    requires History(c, log) && HasPermit(log, g)
    ensures g <= Ideal(c, log).generation
    ensures Ideal(c, log).Open? ==> g < Ideal(c, log).generation
  {
    var n := |log| - 1;
    var before, e := log[..n], log[n];
    HistoryPrefix(c, log, n);
    assert before + [e] == log;
    Extend(c, before, e);
    assert Plausible(c, log[..n], log[n]);
    if HasPermit(before, g) {
      PermitsAreOlder(c, before, g);
      OlderStaysOlder(c, before, e, g);
    } else {
      assert e.Granted? && e.generation == g;
    }
  }

  lemma OlderStaysOlder(c: Config, log: seq<Event>, e: Event, g: nat)
    requires g <= Ideal(c, log).generation && (Ideal(c, log).Open? ==> g < Ideal(c, log).generation)
    ensures g <= Ideal(c, log + [e]).generation && (Ideal(c, log + [e]).Open? ==> g < Ideal(c, log + [e]).generation)
  {
  }

  /** A late outcome leaves an open circuit as it is. */
  lemma LateOutcomesChangeNothing(c: Config, log: seq<Event>, e: Event)
    requires History(c, log) && Ideal(c, log).Open? && (e.Failed? || e.Succeeded?) && Plausible(c, log, e)
    ensures e.generation < Ideal(c, log).generation && Ideal(c, log + [e]) == Ideal(c, log)
  {
    PermitsAreOlder(c, log, e.generation);
    Extend(c, log, e);
  }

  lemma {:induction false} NoPermitNoStreak(log: seq<Event>, g: nat)
    requires forall i :: 0 <= i < |log| && (log[i].Failed? || log[i].Succeeded?) ==> log[i].generation != g
    ensures Streak(log, g) == 0
  {
    if log != [] {
      NoPermitNoStreak(log[..|log| - 1], g);
    }
  }

  lemma OutcomesHavePermits(c: Config, log: seq<Event>, i: nat)
    requires History(c, log) && i < |log| && (log[i].Failed? || log[i].Succeeded?)
    ensures HasPermit(log, log[i].generation)
  {
  }

  /** A generation that is still ahead has no failures yet. */
  lemma FutureStreakIsZero(c: Config, log: seq<Event>, g: nat)
    requires History(c, log) && !HasPermit(log, g)
    ensures Streak(log, g) == 0
  {
    forall i | 0 <= i < |log| && (log[i].Failed? || log[i].Succeeded?) ensures log[i].generation != g {
      OutcomesHavePermits(c, log, i);
    }
    NoPermitNoStreak(log, g);
  }

  /** While a generation is current and closed its streak is below the threshold. */
  lemma {:induction false} ClosedIsBelowThreshold(c: Config, log: seq<Event>)
    requires History(c, log) && c.threshold > 0 && Ideal(c, log).Closed?
    ensures Streak(log, Ideal(c, log).generation) < c.threshold
  {
    if log != [] {
      var n := |log| - 1;
      var before, e := log[..n], log[n];
      HistoryPrefix(c, log, n);
      assert before + [e] == log;
      if Ideal(c, before).Closed? {
        ClosedIsBelowThreshold(c, before);
      }
      StaysBelowThreshold(c, before, e);
    }
  }

  lemma StaysBelowThreshold(c: Config, log: seq<Event>, e: Event)
    requires History(c, log) && c.threshold > 0 && Ideal(c, log + [e]).Closed?
    requires Ideal(c, log).Closed? ==> Streak(log, Ideal(c, log).generation) < c.threshold
    ensures Streak(log + [e], Ideal(c, log + [e]).generation) < c.threshold
  {
    Extend(c, log, e);
    var g := Ideal(c, log + [e]).generation;
    StreakStep(log, e, g);
    if Ideal(c, log).Open? {
      if HasPermit(log, g) { PermitsAreOlder(c, log, g); }
      FutureStreakIsZero(c, log, g);
    }
  }

  ghost predicate TripsAt(c: Config, log: seq<Event>, n: nat)
    requires n < |log|
  {
    Ideal(c, log[..n]).Closed? && Ideal(c, log[..n + 1]).Open?
  }

  /** The circuit opens exactly when the current generation reaches its threshold-th failure since its last success,
      for the first time. */
  lemma OpensExactlyAtThreshold(c: Config, log: seq<Event>, n: nat)
    requires History(c, log) && c.threshold > 0 && n < |log|
    ensures TripsAt(c, log, n) <==>
            log[n].Failed? && Ideal(c, log[..n]) == Closed(log[n].generation) && Streak(log[..n + 1], log[n].generation) == c.threshold
    ensures Ideal(c, log[..n]).Closed? ==> Streak(log[..n], Ideal(c, log[..n]).generation) < c.threshold
  {
    HistoryPrefix(c, log, n);
    var before, after := log[..n], log[..n + 1];
    assert after == before + [log[n]];
    OpensNow(c, before, log[n]);
  }

  lemma OpensNow(c: Config, log: seq<Event>, e: Event)
    requires History(c, log) && c.threshold > 0
    ensures Ideal(c, log).Closed? && Ideal(c, log + [e]).Open? <==>
            e.Failed? && Ideal(c, log) == Closed(e.generation) && Streak(log + [e], e.generation) == c.threshold
    ensures Ideal(c, log).Closed? ==> Streak(log, Ideal(c, log).generation) < c.threshold
  {
    Extend(c, log, e);
    if Ideal(c, log).Closed? {
      ClosedIsBelowThreshold(c, log);
      StreakStep(log, e, Ideal(c, log).generation);
    }
  }

  ghost predicate ClockForward(log: seq<Event>) {
    forall i, k :: 0 <= i < k < |log| && !log[i].Succeeded? && !log[k].Succeeded? ==> log[i].now <= log[k].now
  }

  lemma OpenUnlessGranted(c: Config, log: seq<Event>, e: Event)
    requires Ideal(c, log).Open? && !e.Granted?
    ensures Ideal(c, log + [e]) == Ideal(c, log)
  {
  }

  lemma {:induction false} StaysOpen(c: Config, log: seq<Event>, n: nat, m: nat)
    requires n < m <= |log| && Ideal(c, log[..n + 1]).Open?
    requires forall k :: n < k < m ==> !log[k].Granted?
    ensures Ideal(c, log[..m]) == Ideal(c, log[..n + 1])
  {
    if m > n + 1 {
      StaysOpen(c, log, n, m - 1);
      var before, e := log[..m - 1], log[m - 1];
      OpenUnlessGranted(c, before, e);
      assert log[..m] == before + [e];
    }
  }

  /** With a clock that never runs backwards, no permit is granted between a trip and its deadline. */
  lemma {:induction false} RefusedUntilDeadline(c: Config, log: seq<Event>, n: nat, m: nat)
    requires History(c, log) && ClockForward(log) && n < m < |log| && TripsAt(c, log, n) && log[m].Granted?
    ensures log[n].Failed? && log[m].now >= log[n].now + c.openFor
    decreases m
  {
    assert log[..n + 1] == log[..n] + [log[n]];
    Extend(c, log[..n], log[n]);
    if k :| n < k < m && log[k].Granted? {
      RefusedUntilDeadline(c, log, n, k);
    } else {
      StaysOpen(c, log, n, m);
      assert Plausible(c, log[..m], log[m]);
    }
  }

  /** Fewer than 2^64 generations, and no deadline beyond the latest instant. */
  ghost predicate Clean(c: Config, log: seq<Event>, latest: int) {
    forall n :: 0 <= n <= |log| ==>
      && Ideal(c, log[..n]).generation < TWO64
      && (Ideal(c, log[..n]).Open? ==> Ideal(c, log[..n]).deadline <= latest)
  }

  lemma CleanPrefix(c: Config, log: seq<Event>, e: Event, latest: int)
    requires Clean(c, log + [e], latest)
    ensures Clean(c, log, latest)
    ensures Ideal(c, log + [e]).generation < TWO64
    ensures Ideal(c, log + [e]).Open? ==> Ideal(c, log + [e]).deadline <= latest
  {
    var more := log + [e];
    forall n | 0 <= n <= |log| ensures Ideal(c, log[..n]) == Ideal(c, more[..n]) {
      assert log[..n] == more[..n];
    }
    assert more[..|more|] == more;
  }

  function Wrap(g: nat): nat { if g < TWO64 then g else g % TWO64 }

  function Saturate(f: nat): nat { if f < MAX_U32 then f else MAX_U32 }

  /** `Instant::checked_add`. */
  function Deadline(now: int, openFor: nat, latest: int): Option<int> {
    if now + openFor <= latest then Some(now + openFor) else None
  }

  /** The breaker's mutable state. */
  datatype Fields = Fields(generation: nat, failures: nat, openUntil: Option<int>)

  function Granting(s: Fields): Fields {
    if s.openUntil.Some? then Fields(Wrap(s.generation + 1), 0, None) else s
  }

  function Succeeding(s: Fields, permit: nat): Fields {
    if s.generation == permit && s.openUntil.None? then s.(failures := 0) else s
  }

  function Failing(c: Config, latest: int, s: Fields, permit: nat, now: int): Fields {
    if s.generation != permit then s
    else if Saturate(s.failures + 1) < c.threshold then s.(failures := Saturate(s.failures + 1))
    else Fields(Wrap(s.generation + 1), Saturate(s.failures + 1), Deadline(now, c.openFor, latest))
  }

  /** The fields agree with what the log determines. */
  ghost predicate Follows(p: Phase, log: seq<Event>, s: Fields) {
    && s.generation == p.generation
    && (if p.Open? then s.openUntil == Some(p.deadline) else s.openUntil == None && s.failures == Streak(log, p.generation))
  }

  ghost predicate Good(c: Config, latest: int, log: seq<Event>, s: Fields) {
    Clean(c, log, latest) ==> History(c, log) && Follows(Ideal(c, log), log, s)
  }

  lemma StreakStep(log: seq<Event>, e: Event, g: nat)
    ensures Streak(log + [e], g) ==
            if (e.Failed? || e.Succeeded?) && e.generation == g then (if e.Failed? then Streak(log, g) + 1 else 0) else Streak(log, g)
  {
  }

  lemma RefusedStep(c: Config, latest: int, log: seq<Event>, s: Fields, now: int)
    requires Good(c, latest, log, s) && s.openUntil.Some? && s.openUntil.value > now
    ensures Good(c, latest, log + [Refused(now)], s)
  {
    var e := Refused(now);
    if Clean(c, log + [e], latest) {
      CleanPrefix(c, log, e, latest);
      Extend(c, log, e);
    }
  }

  lemma GrantedStep(c: Config, latest: int, log: seq<Event>, s: Fields, now: int)
    requires Good(c, latest, log, s) && (s.openUntil.Some? ==> s.openUntil.value <= now)
    ensures Good(c, latest, log + [Granted(Granting(s).generation, now)], Granting(s))
  {
    var h := Granting(s).generation;
    var e := Granted(h, now);
    if Clean(c, log + [e], latest) {
      CleanPrefix(c, log, e, latest);
      Extend(c, log, e);
      StreakStep(log, e, h);
      if s.openUntil.Some? {
        if HasPermit(log, h) { PermitsAreOlder(c, log, h); }
        FutureStreakIsZero(c, log, h);
      }
    }
  }

  lemma SucceededStep(c: Config, latest: int, log: seq<Event>, s: Fields, permit: nat)
    requires Good(c, latest, log, s) && HasPermit(log, permit)
    ensures Good(c, latest, log + [Succeeded(permit)], Succeeding(s, permit))
  {
    var e := Succeeded(permit);
    if Clean(c, log + [e], latest) {
      CleanPrefix(c, log, e, latest);
      Extend(c, log, e);
      StreakStep(log, e, s.generation);
    }
  }

  lemma CurrentPermitMeansClosed(c: Config, log: seq<Event>, s: Fields, permit: nat)
    requires History(c, log) && Follows(Ideal(c, log), log, s) && HasPermit(log, permit) && s.generation == permit && c.threshold > 0
    ensures Ideal(c, log) == Closed(permit) && s.failures == Streak(log, permit) < c.threshold
  {
    PermitsAreOlder(c, log, permit);
    ClosedIsBelowThreshold(c, log);
  }

  lemma FailingFollows(c: Config, latest: int, log: seq<Event>, s: Fields, p: Phase, permit: nat, now: int)
    requires Follows(p, log, s) && 0 < c.threshold <= MAX_U32
    requires s.generation == permit ==> p == Closed(permit) && s.failures == Streak(log, permit) < c.threshold
    requires var p' := Next(c, log, p, Failed(permit, now)); p'.generation < TWO64 && (p'.Open? ==> p'.deadline <= latest)
    ensures Follows(Next(c, log, p, Failed(permit, now)), log + [Failed(permit, now)], Failing(c, latest, s, permit, now))
  {
  }

  lemma FailedStep(c: Config, latest: int, log: seq<Event>, s: Fields, permit: nat, now: int)
    requires Good(c, latest, log, s) && HasPermit(log, permit) && 0 < c.threshold <= MAX_U32
    ensures Good(c, latest, log + [Failed(permit, now)], Failing(c, latest, s, permit, now))
  {
    var e := Failed(permit, now);
    if Clean(c, log + [e], latest) {
      CleanPrefix(c, log, e, latest);
      assert Plausible(c, log, e);
      Extend(c, log, e);
      if s.generation == permit {
        CurrentPermitMeansClosed(c, log, s, permit);
      }
      FailingFollows(c, latest, log, s, Ideal(c, log), permit, now);
    }
  }

  /** The breaker with its machine arithmetic: a wrapping generation, saturating failures, a checked deadline. */
  class CircuitBreaker {
    const config: Config
    /** The latest instant the clock can represent. */
    const latest: int
    var generation: nat
    var failures: nat
    var openUntil: Option<int>
    ghost var log: seq<Event>

    function State(): Fields
      reads this
    {
      Fields(generation, failures, openUntil)
    }

    ghost predicate Valid()
      reads this
    {
      0 < config.threshold <= MAX_U32 && Good(config, latest, log, State())
    }

    constructor (config: Config, latest: int)
      requires 0 < config.threshold <= MAX_U32
      ensures Valid() && log == [] && this.config == config && this.latest == latest
    {
      this.config, this.latest := config, latest;
      generation, failures, openUntil, log := 0, 0, None, [];
    }

    /** `permit` at time `now`. */
    method Permit(now: int) returns (permit: Option<nat>)
      requires Valid()
      modifies this
      ensures Valid()
      ensures permit.None? <==> old(openUntil.Some? && openUntil.value > now)
      ensures State() == if permit.None? then old(State()) else Granting(old(State()))
      ensures log == old(log) + [if permit.None? then Refused(now) else Granted(permit.value, now)]
    {
      if openUntil.Some? && openUntil.value > now {
        RefusedStep(config, latest, log, State(), now);
        log := log + [Refused(now)];
        return None;
      }
      GrantedStep(config, latest, log, State(), now);
      if openUntil.Some? {
        openUntil := None;
        failures := 0;
        generation := Wrap(generation + 1);
      }
      log := log + [Granted(generation, now)];
      return Some(generation);
    }

    /** `success` of an operation that entered with `permit`. */
    method Success(permit: nat)
      requires Valid() && HasPermit(log, permit)
      modifies this
      ensures Valid() && log == old(log) + [Succeeded(permit)] && State() == Succeeding(old(State()), permit)
    {
      SucceededStep(config, latest, log, State(), permit);
      if generation == permit && openUntil.None? {
        failures := 0;
      }
      log := log + [Succeeded(permit)];
    }

    /** `failure` of an operation that entered with `permit`, at time `now`. */
    method Failure(permit: nat, now: int)
      requires Valid() && HasPermit(log, permit)
      modifies this
      ensures Valid() && log == old(log) + [Failed(permit, now)] && State() == Failing(config, latest, old(State()), permit, now)
    {
      FailedStep(config, latest, log, State(), permit, now);
      Count(permit, now);
      log := log + [Failed(permit, now)];
    }

    /** The fields after a failure: an operation of an older generation counts for nothing. */
    method Count(permit: nat, now: int)
      modifies this`failures, this`openUntil, this`generation
      ensures State() == Failing(config, latest, old(State()), permit, now)
    {
      if generation != permit {
        return;
      }
      failures := Saturate(failures + 1);
      if failures >= config.threshold {
        openUntil := Deadline(now, config.openFor, latest);
        generation := Wrap(generation + 1);
      }
    }
  }
}
