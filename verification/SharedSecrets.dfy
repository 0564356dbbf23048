/**
 The shared secrets accessor: one cached resolution per isolate, one fetch in flight. A fetch is a promise, so its
 resolution, and the callback that clears the slot after it, come as steps of their own, in between which other
 accesses run.
 */
module SharedSecrets {
  import opened Options

  const DEFAULT_TTL_SECONDS := 60.0
  const MAX_TTL_SECONDS := 3600.0

  /** A number of seconds as the option may hold it: NaN and the infinities are not finite. */
  datatype Seconds = Finite(s: real) | NotFinite

  datatype Config = Config(registry: set<string>, ttlMs: real)

  /** Where one resolution is: waiting, settled (its cache write done, its slot not yet cleared), or over. */
  datatype Fetch =
    | Waiting(config: Config)
    | Resolved(config: Config, at: real, cleared: bool)
    | Rejected(cleared: bool)

  /** The accessor a resolution gives is named by that resolution's number. */
  datatype CacheEntry = CacheEntry(accessor: nat, expiresAt: real)

  datatype State = State(config: Option<Config>, cache: Option<CacheEntry>, inflight: Option<nat>, fetches: seq<Fetch>)

  datatype Event =
    | Configure(registry: set<string>, ttlSeconds: Option<Seconds>)
    | Reset
    | Access(names: set<string>, now: real)
    | Resolve(fetch: nat, now: real)
    | Reject(fetch: nat)
    | Finally(fetch: nat)

  datatype SecretsError = NotConfigured | BadTtl | NotDeclared

  /** A view over the cached accessor, or the promise of a fetch. */
  datatype Answer = Nothing | Served(accessor: nat) | Awaits(fetch: nat) | Failed(error: SecretsError)

  const START := State(None, None, None, [])

  function Ttl(ttlSeconds: Option<Seconds>): Option<real> {
    var ttl := if ttlSeconds.Some? then ttlSeconds.value else Finite(DEFAULT_TTL_SECONDS);
    if ttl.NotFinite? || ttl.s < 0.0 || ttl.s > MAX_TTL_SECONDS then None else Some(ttl.s)
  }

  predicate Fresh(cache: Option<CacheEntry>, now: real) {
    cache.Some? && now < cache.value.expiresAt
  }

  /** The promise can make this move: a waiting one settles, a settled one clears its slot. */
  predicate Enabled(st: State, e: Event) {
    match e
    case Resolve(i, now) => i < |st.fetches| && st.fetches[i].Waiting?
    case Reject(i) => i < |st.fetches| && st.fetches[i].Waiting?
    case Finally(i) => i < |st.fetches| && !st.fetches[i].Waiting? && !st.fetches[i].cleared
    case _ => true
  }

  function Step(st: State, e: Event): (State, Answer)
    requires Enabled(st, e)
  {
    match e
    case Configure(registry, ttlSeconds) =>
      var ttl := Ttl(ttlSeconds);
      if ttl.None? then (st, Failed(BadTtl))
      else (State(Some(Config(registry, ttl.value * 1000.0)), None, None, st.fetches), Nothing)
    case Reset => (State(None, None, None, st.fetches), Nothing)
    case Access(names, now) =>
      if st.config.None? then (st, Failed(NotConfigured))
      else if !(names <= st.config.value.registry) then (st, Failed(NotDeclared))
      else if Fresh(st.cache, now) then (st, Served(st.cache.value.accessor))
      else if st.inflight.Some? then (st, Awaits(st.inflight.value))
      else (st.(inflight := Some(|st.fetches|), fetches := st.fetches + [Waiting(st.config.value)]), Awaits(|st.fetches|))
    case Resolve(i, now) =>
      var cfg := st.fetches[i].config;
      (st.(cache := Some(CacheEntry(i, now + cfg.ttlMs)), fetches := st.fetches[i := Resolved(cfg, now, false)]), Nothing)
    case Reject(i) => (st.(fetches := st.fetches[i := Rejected(false)]), Nothing)
    case Finally(i) =>
      (st.(inflight := None, fetches := st.fetches[i := st.fetches[i].(cleared := true)]), Nothing)
  }

  /** The module's own variables, the promises it has made, and everything that has happened to it. */
  class Store {
    var config: Option<Config>
    var cache: Option<CacheEntry>
    var inflight: Option<nat>
    var fetches: seq<Fetch>
    ghost var events: seq<Event>

    function Now(): State
      reads this
    {
      State(config, cache, inflight, fetches)
    }

    /** The variables are where the events have brought them, so whatever holds of every run holds here. */
    ghost predicate Valid()
      reads this
    {
      Feasible(START, events) && Now() == Run(START, events)
    }

    constructor ()
      ensures Valid() && events == []
    {
      config, cache, inflight, fetches, events := None, None, None, [], [];
    }

    method ConfigureSharedSecrets(registry: set<string>, ttlSeconds: Option<Seconds>) returns (answer: Answer)
      requires Valid()
      modifies this
      ensures Valid() && events == old(events) + [Configure(registry, ttlSeconds)]
      ensures (Now(), answer) == Step(old(Now()), Configure(registry, ttlSeconds))
      ensures var lifetime := if ttlSeconds.Some? then ttlSeconds.value else Finite(60.0);
              if lifetime.Finite? && 0.0 <= lifetime.s <= 3600.0 then
                answer == Nothing && Now() == State(Some(Config(registry, 1000.0 * lifetime.s)), None, None, old(fetches))
              else answer == Failed(BadTtl) && Now() == old(Now())
    {
      RunMore(START, events, Configure(registry, ttlSeconds));
      events := events + [Configure(registry, ttlSeconds)];
      var ttl := if ttlSeconds.Some? then ttlSeconds.value else Finite(DEFAULT_TTL_SECONDS);
      if ttl.NotFinite? || ttl.s < 0.0 || ttl.s > MAX_TTL_SECONDS { return Failed(BadTtl); }
      config := Some(Config(registry, ttl.s * 1000.0));
      cache := None;
      inflight := None;
      answer := Nothing;
    }

    method ResetSharedSecrets()
      requires Valid()
      modifies this
      ensures Valid() && events == old(events) + [Reset]
      ensures Now() == Step(old(Now()), Reset).0
    {
      RunMore(START, events, Reset);
      config, cache, inflight := None, None, None;
      events := events + [Reset];
    }

    method SharedSecretsStore(names: set<string>, now: real) returns (answer: Answer)
      requires Valid()
      modifies this
      ensures Valid() && events == old(events) + [Access(names, now)]
      ensures (Now(), answer) == Step(old(Now()), Access(names, now))
    {
      RunMore(START, events, Access(names, now));
      events := events + [Access(names, now)];
      if config.None? { return Failed(NotConfigured); }
      if !(names <= config.value.registry) { return Failed(NotDeclared); }
      answer := ResolveCombined(now);
    }

    method ResolveCombined(now: real) returns (answer: Answer)
      requires config.Some?
      modifies this
      ensures (Now(), answer) == Step(old(Now()), Access({}, now)) && events == old(events)
    {
      if cache.Some? && now < cache.value.expiresAt { return Served(cache.value.accessor); }
      if inflight.None? {
        inflight := Some(|fetches|);
        fetches := fetches + [Waiting(config.value)];
      }
      answer := Awaits(inflight.value);
    }

    /** `.then`: the fetch's own configuration dates the entry. */
    method OnResolved(i: nat, now: real)
      requires Valid() && Enabled(Now(), Resolve(i, now))
      modifies this
      ensures Valid() && events == old(events) + [Resolve(i, now)]
      ensures Now() == Step(old(Now()), Resolve(i, now)).0
    {
      RunMore(START, events, Resolve(i, now));
      var cfg := fetches[i].config;
      cache := Some(CacheEntry(i, now + cfg.ttlMs));
      fetches := fetches[i := Resolved(cfg, now, false)];
      events := events + [Resolve(i, now)];
    }

    /** `.then` is passed over. */
    method OnRejected(i: nat)
      requires Valid() && Enabled(Now(), Reject(i))
      modifies this
      ensures Valid() && events == old(events) + [Reject(i)]
      ensures Now() == Step(old(Now()), Reject(i)).0
    {
      RunMore(START, events, Reject(i));
      fetches := fetches[i := Rejected(false)];
      events := events + [Reject(i)];
    }

    /** `.finally`: whatever the slot holds, it is cleared. */
    method OnFinally(i: nat)
      requires Valid() && Enabled(Now(), Finally(i))
      modifies this
      ensures Valid() && events == old(events) + [Finally(i)]
      ensures Now() == Step(old(Now()), Finally(i)).0
    {
      RunMore(START, events, Finally(i));
      inflight := None;
      fetches := fetches[i := fetches[i].(cleared := true)];
      events := events + [Finally(i)];
    }
  }

  // -------------------- runs --------------------

  /** Every step one its promise can make. */
  ghost predicate Feasible(st: State, events: seq<Event>)
    decreases |events|, 0
  {
    events == [] || (Feasible(st, events[..|events|-1]) && Enabled(Run(st, events[..|events|-1]), events[|events|-1]))
  }

  ghost function Run(st: State, events: seq<Event>): State
    requires Feasible(st, events)
    decreases |events|, 1
  {
    if events == [] then st else Step(Run(st, events[..|events|-1]), events[|events|-1]).0
  }

  lemma RunMore(st: State, events: seq<Event>, e: Event)
    requires Feasible(st, events) && Enabled(Run(st, events), e)
    ensures Feasible(st, events + [e]) && Run(st, events + [e]) == Step(Run(st, events), e).0
  {
    assert (events + [e])[..|events|] == events;
  }

  /** The clock an event reads, where it reads one. */
  function ClockAt(e: Event, clock: real): real {
    if e.Access? || e.Resolve? then e.now else clock
  }

  function ClockAfter(clock: real, events: seq<Event>): real
    decreases |events|
  {
    if events == [] then clock else ClockAt(events[|events|-1], ClockAfter(clock, events[..|events|-1]))
  }

  /** The clock never goes back. */
  predicate Monotone(clock: real, events: seq<Event>)
    decreases |events|
  {
    events == [] ||
    (Monotone(clock, events[..|events|-1]) && ClockAfter(clock, events[..|events|-1]) <= ClockAfter(clock, events))
  }

  predicate Pending(f: Fetch) {
    f.Waiting? || !f.cleared
  }

  predicate Quiet(st: State) {
    forall i | 0 <= i < |st.fetches| :: !Pending(st.fetches[i])
  }

  /** It replaces the configuration, or forgets it; a lifetime that is refused does neither. */
  predicate Reconfigures(e: Event) {
    e.Reset? || (e.Configure? && Ttl(e.ttlSeconds).Some?)
  }

  /** No reconfiguration while a fetch is pending. */
  ghost predicate Quietly(st: State, events: seq<Event>)
    requires Feasible(st, events)
    decreases |events|
  {
    events == [] ||
    (Quietly(st, events[..|events|-1]) && (Reconfigures(events[|events|-1]) ==> Quiet(Run(st, events[..|events|-1]))))
  }

  ghost predicate Lawful(st: State, clock: real, events: seq<Event>) {
    Feasible(st, events) && Monotone(clock, events) && Quietly(st, events)
  }

  /** Only the fetch in the slot is pending, and the cache holds a resolution of this configuration, dated by it. */
  predicate Sound(st: State, clock: real) {
    && (forall i | 0 <= i < |st.fetches| && Pending(st.fetches[i]) :: st.inflight == Some(i))
    && (st.inflight.Some? ==>
          && st.inflight.value < |st.fetches| && Pending(st.fetches[st.inflight.value])
          && st.config.Some? && (st.fetches[st.inflight.value].Waiting? ==> st.fetches[st.inflight.value].config == st.config.value))
    && (st.config.Some? ==> 0.0 <= st.config.value.ttlMs <= MAX_TTL_SECONDS * 1000.0)
    && (st.cache.Some? ==>
          && st.config.Some? && st.cache.value.accessor < |st.fetches|
          && st.fetches[st.cache.value.accessor].Resolved?
          && st.fetches[st.cache.value.accessor].config == st.config.value
          && st.fetches[st.cache.value.accessor].at <= clock
          && st.cache.value.expiresAt == st.fetches[st.cache.value.accessor].at + st.config.value.ttlMs)
  }

  lemma StepKeepsSound(st: State, clock: real, e: Event)
    requires Sound(st, clock) && Enabled(st, e) && clock <= ClockAt(e, clock)
    requires Reconfigures(e) ==> Quiet(st)
    ensures Sound(Step(st, e).0, ClockAt(e, clock))
  {
    var next := Step(st, e).0;
    if e.Finally? { assert Pending(st.fetches[e.fetch]); }
    forall i | 0 <= i < |next.fetches| && Pending(next.fetches[i]) ensures next.inflight == Some(i) {
      if i < |st.fetches| && Pending(st.fetches[i]) { assert st.inflight == Some(i); }
    }
  }

  lemma {:induction false} RunIsSound(st: State, clock: real, events: seq<Event>)
    requires Sound(st, clock) && Lawful(st, clock, events)
    ensures Sound(Run(st, events), ClockAfter(clock, events))
    decreases |events|
  {
    if events != [] {
      var init, e := events[..|events|-1], events[|events|-1];
      RunIsSound(st, clock, init);
      StepKeepsSound(Run(st, init), ClockAfter(clock, init), e);
    }
  }

  /** What a caller has configured: the last registry and lifetime that were accepted, if nothing has reset them. */
  datatype Setting = Setting(registry: set<string>, seconds: real)

  function SettingOf(events: seq<Event>): Option<Setting> {
    if events == [] then None
    else
      var init, e := events[..|events|-1], events[|events|-1];
      if e.Reset? then None
      else if e.Configure? && e.ttlSeconds == None then Some(Setting(e.registry, 60.0))
      else if e.Configure? && e.ttlSeconds.value.Finite? && 0.0 <= e.ttlSeconds.value.s <= 3600.0 then
        Some(Setting(e.registry, e.ttlSeconds.value.s))
      else SettingOf(init)
  }

  /** The configuration in force is that, the lifetime in milliseconds. */
  lemma {:induction false} ConfiguredAs(events: seq<Event>)
    requires Feasible(START, events)
    ensures Run(START, events).config ==
            if SettingOf(events).None? then None
            else Some(Config(SettingOf(events).value.registry, 1000.0 * SettingOf(events).value.seconds))
    decreases |events|
  {
    if events != [] { ConfiguredAs(events[..|events|-1]); }
  }

  /**
   After any lawful run at most one resolution is pending. What an access is served from the cache was resolved under this
   configuration less than a lifetime ago, the lifetime at most an hour; an access the cache does not serve shares the
   pending fetch, and only where there is none starts one; and it raises exactly when nothing is configured or it asks
   for a name outside the registry.
   */
  lemma {:induction false} EveryAccess(clock: real, events: seq<Event>, names: set<string>, now: real)
    requires Lawful(START, clock, events) && ClockAfter(clock, events) <= now
    ensures var st, setting := Run(START, events), SettingOf(events);
            var (next, answer) := Step(st, Access(names, now));
            && (forall i, j | 0 <= i < |st.fetches| && 0 <= j < |st.fetches| && Pending(st.fetches[i]) && Pending(st.fetches[j]) :: i == j)
            && (answer.Served? ==>
                  && next == st && setting.Some? && names <= setting.value.registry && answer.accessor < |st.fetches|
                  && var f := st.fetches[answer.accessor];
                  f.Resolved? && f.config == st.config.value && f.at <= now < f.at + 1000.0 * setting.value.seconds <= f.at + 3600000.0)
            && (answer.Awaits? ==>
                  && !Fresh(st.cache, now)
                  && answer.fetch < |next.fetches| && Pending(next.fetches[answer.fetch])
                  && (if Quiet(st) then answer.fetch == |st.fetches| && |next.fetches| == |st.fetches| + 1 else next == st))
            && (answer.Failed? <==> setting.None? || !(names <= setting.value.registry))
  {
    assert Sound(START, clock);
    ConfiguredAs(events);
    RunIsSound(START, clock, events);
  }

  /**
   Whatever the pending fetch of a lawful run comes to, the slot is free again: after a failure the next access the cache
   does not serve fetches afresh, and after a success it serves the accessor until the lifetime is over.
   */
  lemma {:induction false} FetchAgain(clock: real, events: seq<Event>, i: nat, names: set<string>, settled: real, now: real)
    requires Lawful(START, clock, events) && ClockAfter(clock, events) <= settled <= now
    requires i < |Run(START, events).fetches| && Run(START, events).fetches[i].Waiting?
    requires SettingOf(events).Some? && names <= SettingOf(events).value.registry
    ensures var st := Run(START, events);
            var failed := Step(Step(st, Reject(i)).0, Finally(i)).0;
            var done := Step(Step(st, Resolve(i, settled)).0, Finally(i)).0;
            && (Step(failed, Access(names, now)).1 == if Fresh(st.cache, now) then Served(st.cache.value.accessor) else Awaits(|st.fetches|))
            && (Step(done, Access(names, now)).1 ==
                if now < settled + 1000.0 * SettingOf(events).value.seconds then Served(i) else Awaits(|st.fetches|))
  {
    assert Sound(START, clock);
    ConfiguredAs(events);
    RunIsSound(START, clock, events);
    assert Pending(Run(START, events).fetches[i]);
  }

  // -------------------- reconfiguring while a fetch is pending --------------------

  /** What may follow while nothing is reconfigured again. */
  ghost predicate Continues(st: State, clock: real, events: seq<Event>) {
    Feasible(st, events) && Monotone(clock, events) && forall i | 0 <= i < |events| :: !Reconfigures(events[i])
  }

  lemma {:induction false} ContinuesLawful(st: State, clock: real, events: seq<Event>)
    requires Continues(st, clock, events)
    ensures Lawful(st, clock, events)
    decreases |events|
  {
    if events != [] {
      var init := events[..|events|-1];
      assert forall i | 0 <= i < |init| :: init[i] == events[i];
      ContinuesLawful(st, clock, init);
      assert !Reconfigures(events[|events|-1]);
    }
  }

  lemma ContinuesMore(st: State, clock: real, events: seq<Event>, e: Event)
    requires Continues(st, clock, events) && Enabled(Run(st, events), e) && !Reconfigures(e)
    requires ClockAfter(clock, events) <= ClockAt(e, ClockAfter(clock, events))
    ensures Continues(st, clock, events + [e])
    ensures Run(st, events + [e]) == Step(Run(st, events), e).0
    ensures ClockAfter(clock, events + [e]) == ClockAt(e, ClockAfter(clock, events))
  {
    assert (events + [e])[..|events|] == events;
  }

  // -------------------- the lifetime configured --------------------

  /** Whatever is waiting of the fetches started since there were `before` of them was started under this configuration. */
  predicate StartedUnder(st: State, before: nat, cfg: Config) {
    && before <= |st.fetches| && st.config == Some(cfg)
    && forall i | before <= i < |st.fetches| && st.fetches[i].Waiting? :: st.fetches[i].config == cfg
  }

  lemma {:induction false} StaysStarted(st: State, clock: real, events: seq<Event>, before: nat, cfg: Config)
    requires Continues(st, clock, events) && StartedUnder(st, before, cfg)
    ensures StartedUnder(Run(st, events), before, cfg)
    decreases |events|
  {
    if events != [] {
      var init := events[..|events|-1];
      assert forall i | 0 <= i < |init| :: init[i] == events[i];
      StaysStarted(st, clock, init, before, cfg);
      assert !Reconfigures(events[|events|-1]);
    }
  }

  /** An entry stays in the cache, and the configuration in place, until a fetch resolves. */
  lemma {:induction false} EntryStays(st: State, clock: real, events: seq<Event>)
    requires Continues(st, clock, events) && forall i | 0 <= i < |events| :: !events[i].Resolve?
    ensures Run(st, events).cache == st.cache && Run(st, events).config == st.config
    decreases |events|
  {
    if events != [] {
      var init := events[..|events|-1];
      assert forall i | 0 <= i < |init| :: init[i] == events[i];
      EntryStays(st, clock, init);
      assert !Reconfigures(events[|events|-1]);
    }
  }

  /** A lifetime is accepted exactly when it is finite and from nothing to an hour, a minute where none is given; any other raises. */
  lemma {:induction false} AcceptedExact(st: State, registry: set<string>, ttlSeconds: Option<Seconds>)
    ensures var lifetime := if ttlSeconds.Some? then ttlSeconds.value else Finite(60.0);
            var (next, answer) := Step(st, Configure(registry, ttlSeconds));
            if lifetime.Finite? && 0.0 <= lifetime.s <= 3600.0 then
              answer == Nothing && next == State(Some(Config(registry, 1000.0 * lifetime.s)), None, None, st.fetches)
            else answer == Failed(BadTtl) && next == st
  {
  }

  /**
   A configured lifetime of so many seconds is kept to the millisecond: an accessor fetched under it is served for exactly
   that long from its resolution, whatever else happens meanwhile, until it is configured again or another fetch resolves.
   */
  lemma {:induction false} LifetimeExact(st: State, registry: set<string>, ttlSeconds: Option<Seconds>, seconds: real, clock: real,
                                         events: seq<Event>, i: nat, resolved: real, more: seq<Event>, names: set<string>, now: real)
    requires (ttlSeconds == None && seconds == 60.0) || (ttlSeconds == Some(Finite(seconds)) && 0.0 <= seconds <= 3600.0)
    requires var configured := Step(st, Configure(registry, ttlSeconds)).0;
             && Continues(configured, clock, events) && ClockAfter(clock, events) <= resolved
             && |st.fetches| <= i < |Run(configured, events).fetches| && Run(configured, events).fetches[i].Waiting?
             && var filled := Step(Run(configured, events), Resolve(i, resolved)).0;
             && Continues(filled, resolved, more) && ClockAfter(resolved, more) <= now
             && forall k | 0 <= k < |more| :: !more[k].Resolve?
    requires names <= registry
    ensures var configured := Step(st, Configure(registry, ttlSeconds)).0;
            var filled := Step(Run(configured, events), Resolve(i, resolved)).0;
            var answer := Step(Run(filled, more), Access(names, now)).1;
            if now < resolved + 1000.0 * seconds then answer == Served(i) else answer.Awaits?
  {
    AcceptedExact(st, registry, ttlSeconds);
    var configured, cfg := Step(st, Configure(registry, ttlSeconds)).0, Config(registry, 1000.0 * seconds);
    StaysStarted(configured, clock, events, |st.fetches|, cfg);
    var filled := Step(Run(configured, events), Resolve(i, resolved)).0;
    EntryStays(filled, resolved, more);
  }

  /** Two resolutions wait at once: the single flight is lost. */
  predicate TwoWaiting(st: State) {
    exists i, j :: 0 <= i < j < |st.fetches| && st.fetches[i].Waiting? && st.fetches[j].Waiting?
  }

  predicate Accepted(e: Event) {
    e.Configure? && Ttl(e.ttlSeconds).Some?
  }

  /**
   Two resolutions of one configuration's lifetime can wait at once exactly when it was configured with a fetch pending:
   one still waiting is joined by a second, and one already settled clears the slot of the second, which a third then joins.
   */
  lemma {:induction false} ReconfigureExact(st: State, clock: real, e: Event)
    requires Sound(st, clock) && Accepted(e)
    ensures Quiet(st) <==>
            forall events {:trigger Continues(Step(st, e).0, clock, events)} | Continues(Step(st, e).0, clock, events) ::
              !TwoWaiting(Run(Step(st, e).0, events))
  {
    var next := Step(st, e).0;
    if Quiet(st) {
      StepKeepsSound(st, clock, e);
      forall events | Continues(next, clock, events) ensures !TwoWaiting(Run(next, events)) {
        ContinuesLawful(next, clock, events);
        RunIsSound(next, clock, events);
        OneWaits(Run(next, events), ClockAfter(clock, events));
      }
    } else {
      var events := SecondFlight(st, clock, e);
    }
  }

  lemma OneWaits(st: State, clock: real)
    requires Sound(st, clock)
    ensures !TwoWaiting(st)
  {
    forall i, j | 0 <= i < j < |st.fetches| ensures !(st.fetches[i].Waiting? && st.fetches[j].Waiting?) {
      assert Pending(st.fetches[i]) ==> st.inflight == Some(i);
      assert Pending(st.fetches[j]) ==> st.inflight == Some(j);
    }
  }

  /** With nothing cached and no fetch in the slot, an access that asks for no name starts a fetch. */
  lemma AccessFetches(st: State, clock: real, events: seq<Event>) returns (more: seq<Event>)
    requires Continues(st, clock, events)
    requires var mid := Run(st, events); mid.config.Some? && mid.cache == None && mid.inflight == None
    ensures Continues(st, clock, more)
    ensures var mid := Run(st, events);
            Run(st, more) == mid.(inflight := Some(|mid.fetches|), fetches := mid.fetches + [Waiting(mid.config.value)])
  {
    var access := Access({}, ClockAfter(clock, events));
    ContinuesMore(st, clock, events, access);
    more := events + [access];
  }

  lemma {:induction false} SecondFlight(st: State, clock: real, e: Event) returns (events: seq<Event>)
    requires Accepted(e) && !Quiet(st)
    ensures Continues(Step(st, e).0, clock, events) && TwoWaiting(Run(Step(st, e).0, events))
  {
    var next := Step(st, e).0;
    var i :| 0 <= i < |st.fetches| && Pending(st.fetches[i]);
    assert Continues(next, clock, []);
    events := AccessFetches(next, clock, []);
    if st.fetches[i].Waiting? {
      assert Run(next, events).fetches[i].Waiting? && Run(next, events).fetches[|st.fetches|].Waiting?;
    } else {
      events := ClearedThenFetched(next, clock, events, i);
    }
  }

  /** A settled fetch of before clears the slot of the one waiting in it, and another fetch starts. */
  lemma {:induction false} ClearedThenFetched(st: State, clock: real, events: seq<Event>, i: nat) returns (more: seq<Event>)
    requires Continues(st, clock, events)
    requires var mid := Run(st, events);
             && mid.config.Some? && mid.cache == None && i < |mid.fetches| - 1 && Enabled(mid, Finally(i))
             && mid.fetches[|mid.fetches|-1].Waiting?
    ensures Continues(st, clock, more) && TwoWaiting(Run(st, more))
  {
    var mid := Run(st, events);
    ContinuesMore(st, clock, events, Finally(i));
    more := AccessFetches(st, clock, events + [Finally(i)]);
    assert Run(st, more).fetches[|mid.fetches|-1].Waiting? && Run(st, more).fetches[|mid.fetches|].Waiting?;
  }

  /** An access is served what a fetch from before the configuration resolved. */
  predicate ServesOld(st: State, before: nat, now: real) {
    var answer := Step(st, Access({}, now)).1;
    answer.Served? && answer.accessor < before
  }

  /** A fetch of before is still waiting, and would be kept for any time at all. */
  predicate OldWaits(st: State, before: nat) {
    exists i :: 0 <= i < before && i < |st.fetches| && st.fetches[i].Waiting? && st.fetches[i].config.ttlMs > 0.0
  }

  /** An access after a configuration can be served an accessor from before it exactly when a fetch was still waiting then. */
  lemma {:induction false} StaleExact(st: State, clock: real, e: Event)
    requires Accepted(e)
    ensures OldWaits(st, |st.fetches|) <==>
            exists events, now {:trigger Continues(Step(st, e).0, clock, events), ServesOld(Run(Step(st, e).0, events), |st.fetches|, now)} ::
              Continues(Step(st, e).0, clock, events) && ClockAfter(clock, events) <= now && ServesOld(Run(Step(st, e).0, events), |st.fetches|, now)
  {
    var next := Step(st, e).0;
    if OldWaits(st, |st.fetches|) {
      var i :| 0 <= i < |st.fetches| && st.fetches[i].Waiting? && st.fetches[i].config.ttlMs > 0.0;
      assert Continues(next, clock, []);
      ContinuesMore(next, clock, [], Resolve(i, clock));
      var events := [] + [Resolve(i, clock)];
      assert ServesOld(Run(next, events), |st.fetches|, clock);
    } else {
      forall events, now | Continues(next, clock, events) && ClockAfter(clock, events) <= now
        ensures !ServesOld(Run(next, events), |st.fetches|, now)
      {
        OldNeverFresh(next, clock, events, |st.fetches|);
      }
    }
  }

  /** Where no old fetch waits to be kept, nothing old is ever fresh again. */
  predicate NothingOld(st: State, before: nat, clock: real) {
    && before <= |st.fetches| && !OldWaits(st, before)
    && (st.cache.Some? && st.cache.value.accessor < before ==> st.cache.value.expiresAt <= clock)
  }

  lemma {:induction false} OldNeverFresh(st: State, clock: real, events: seq<Event>, before: nat)
    requires Continues(st, clock, events) && NothingOld(st, before, clock)
    ensures NothingOld(Run(st, events), before, ClockAfter(clock, events))
    decreases |events|
  {
    if events != [] {
      var init, e := events[..|events|-1], events[|events|-1];
      assert forall i | 0 <= i < |init| :: init[i] == events[i];
      OldNeverFresh(st, clock, init, before);
      assert !Reconfigures(e);
      StepNeverFresh(Run(st, init), ClockAfter(clock, init), e, before);
    }
  }

  lemma StepNeverFresh(st: State, clock: real, e: Event, before: nat)
    requires NothingOld(st, before, clock) && Enabled(st, e) && !Reconfigures(e) && clock <= ClockAt(e, clock)
    ensures NothingOld(Step(st, e).0, before, ClockAt(e, clock))
  {
    var next := Step(st, e).0;
    forall i | 0 <= i < before ensures !(next.fetches[i].Waiting? && next.fetches[i].config.ttlMs > 0.0) {
      assert !(st.fetches[i].Waiting? && st.fetches[i].config.ttlMs > 0.0);
    }
  }

  /** For as long as the old lifetime says, and whatever registry the new configuration has. */
  lemma OldFetchFillsNewCache(st: State, i: nat, registry: set<string>, ttl: real, names: set<string>, at: real, now: real)
    requires i < |st.fetches| && st.fetches[i].Waiting? && 0.0 <= ttl <= MAX_TTL_SECONDS
    requires names <= registry && registry != st.fetches[i].config.registry
    requires at <= now < at + st.fetches[i].config.ttlMs
    ensures var configured := Step(st, Configure(registry, Some(Finite(ttl)))).0;
            var (joined, second) := Step(configured, Access(names, at));
            var resolved := Step(joined, Resolve(i, at)).0;
            && second == Awaits(|st.fetches|) && Pending(joined.fetches[i]) && Pending(joined.fetches[|st.fetches|])
            && Step(resolved, Access(names, now)).1 == Served(i)
            && resolved.fetches[i].config.registry != resolved.config.value.registry
  {
  }
}
