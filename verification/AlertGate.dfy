/**
 What gets a signal past an alert rule, read off the replay's firings: every reason to be stopped, that
 there is no other, and what each switch leaves alone.

 The reasons are written out per scope, direction and field, apart from the gate they are proved about.
 */
module AlertGate {
  import opened Wrappers
  import opened AlertMatching

  // ------------------------------------------------------------------ what stops a signal

  datatype Obstacle =
    | OtherScan | ScopeOff | SpikesOff | DropsOff
    | TooFewExpected | TooSmallChange | TooSmallPercent | NoMovement
    | FilteredOut(i: nat)

  /** The signals that are counts against a baseline. */
  predicate Counted(c: Candidate) {
    c.scope == ProjectTotal || c.scope == EventTypeScope || c.scope == EventScope || c.scope == Metric
  }

  /** The signal carries the value in the field a filter looks at. */
  predicate Carries(field: Field, c: Candidate, types: map<Uuid, Uuid>, value: string) {
    match field
    case EventTypeField =>
      || c.eventType == Some(value)
      || (c.eventType == None && c.event.Some? && c.event.value in types && types[c.event.value] == value)
    case EventField => c.event == Some(value)
    case DirectionField => (c.direction == Spike && value == "up") || (c.direction != Spike && value == "down")
    case MetricField => c.scope == Metric && c.scopeRef == value
    case OtherField => false
  }

  ghost predicate Rejects(f: Filter, c: Candidate, types: map<Uuid, Uuid>) {
    exists value :: RejectsValue(f, c, types, value)
  }

  predicate RejectsValue(f: Filter, c: Candidate, types: map<Uuid, Uuid>, value: string) {
    && Carries(f.field, c, types, value)
    && (|| (f.operator in {Eq, In} && value !in f.values)
        || (f.operator in {Ne, NotIn} && value in f.values))
  }

  predicate ScopeSwitchedOff(on: Switches, scope: Scope) {
    match scope
    case ProjectTotal => !on.includeProjectTotal
    case EventTypeScope => !on.includeEventTypes
    case EventScope => !on.includeEvents
    case SchemaScope => !on.includeSchemaDrifts
    case Distribution => !on.includeDistributionDrifts
    case ReleaseRegression => !on.includeReleaseRegressions
    case VariableValueDrift => !on.includeVariableValueDrifts
    case PropertyDrift => !on.includePropertyDrifts
    case SourceFreshness => !on.includeSourceFreshness
    case Lifecycle => !on.includeLifecycle
    case Metric => !on.includeMetrics
  }

  /** `-bound < x < bound`. */
  predicate Below(x: real, bound: real) {
    -bound < x && x < bound
  }

  function Floor(rule: Rule, w: WhatIf): real {
    if w.minExpectedCount == None then rule.minExpectedCount else w.minExpectedCount.value
  }

  function Percent(rule: Rule, w: WhatIf): real {
    if w.minPercentDelta == None then rule.minPercentDelta else w.minPercentDelta.value
  }

  ghost predicate Stops(rule: Rule, c: Candidate, w: WhatIf, types: map<Uuid, Uuid>, why: Obstacle) {
    match why
    case OtherScan => rule.scan != None && c.scan != rule.scan && c.scope != Lifecycle
    case ScopeOff => ScopeSwitchedOff(rule.scopes, c.scope)
    case SpikesOff => c.scope != Lifecycle && c.direction == Spike && !rule.notifyOnSpike
    case DropsOff => c.scope != Lifecycle && c.direction == Drop && !rule.notifyOnDrop
    case TooFewExpected => Counted(c) && Below(c.expected, Floor(rule, w))
    case TooSmallChange => Counted(c) && Below(c.actual - c.expected, rule.minAbsoluteDelta)
    case TooSmallPercent =>
      && Counted(c) && c.expected != 0.0
      && Below((c.actual - c.expected) * 100.0, Percent(rule, w) * Magnitude(c.expected))
    case NoMovement => Counted(c) && c.expected == 0.0 && c.actual == c.expected
    case FilteredOut(i) => i < |rule.filters| && Rejects(rule.filters[i], c, types)
  }

  function Magnitude(x: real): real {
    if x >= 0.0 then x else -x
  }

  ghost predicate Passes(rule: Rule, c: Candidate, w: WhatIf, types: map<Uuid, Uuid>) {
    forall why :: !Stops(rule, c, w, types, why)
  }

  // -------------------------------------------------------------- it is exactly the gate

  lemma FilterExactly(f: Filter, c: Candidate, types: map<Uuid, Uuid>)
    ensures FilterMatches(f, c, types) <==> !Rejects(f, c, types)
  {
    var actual := FieldOf(f.field, c, types);
    forall value
      ensures Carries(f.field, c, types, value) <==> actual == Some(value)
    {
    }
    if actual.Some? && !FilterMatches(f, c, types) {
      assert RejectsValue(f, c, types, actual.value);
    }
  }

  lemma RatioExactly(delta: real, level: real, percent: real)
    requires delta >= 0.0 && level > 0.0
    ensures delta / level * 100.0 >= percent <==> delta * 100.0 >= percent * level
  {
    var ratio := delta / level;
    assert ratio * level == delta;
    Scale(ratio * 100.0, percent, level);
  }

  lemma Scale(a: real, b: real, level: real)
    requires level > 0.0
    ensures a >= b <==> a * level >= b * level
  {
    if a < b {
      assert (b - a) * level > 0.0;
    } else {
      assert (a - b) * level >= 0.0;
    }
  }

  lemma ThresholdsExactly(rule: Rule, c: Candidate, w: WhatIf)
    requires Counted(c)
    ensures ClearsThresholds(rule, c, w) <==>
      && !Below(c.expected, Floor(rule, w))
      && !Below(c.actual - c.expected, rule.minAbsoluteDelta)
      && !(c.expected != 0.0 && Below((c.actual - c.expected) * 100.0, Percent(rule, w) * Magnitude(c.expected)))
      && !(c.expected == 0.0 && c.actual == c.expected)
  {
    if c.expected != 0.0 {
      RatioExactly(Abs(c.actual - c.expected), Abs(c.expected), Percent(rule, w));
    }
  }

  /** The obstacles one by one. */
  lemma PassesAll(rule: Rule, c: Candidate, w: WhatIf, types: map<Uuid, Uuid>)
    ensures Passes(rule, c, w, types) <==>
      && !Stops(rule, c, w, types, OtherScan) && !Stops(rule, c, w, types, ScopeOff)
      && !Stops(rule, c, w, types, SpikesOff) && !Stops(rule, c, w, types, DropsOff)
      && !Stops(rule, c, w, types, TooFewExpected) && !Stops(rule, c, w, types, TooSmallChange)
      && !Stops(rule, c, w, types, TooSmallPercent) && !Stops(rule, c, w, types, NoMovement)
      && forall i :: !Stops(rule, c, w, types, FilteredOut(i))
  {
  }

  lemma FiltersExactly(rule: Rule, c: Candidate, w: WhatIf, types: map<Uuid, Uuid>)
    ensures FiltersMatch(rule, c, types) <==> forall i :: !Stops(rule, c, w, types, FilteredOut(i))
  {
    forall i: nat | i < |rule.filters|
      ensures FilterMatches(rule.filters[i], c, types) <==> !Stops(rule, c, w, types, FilteredOut(i))
    {
      FilterExactly(rule.filters[i], c, types);
    }
  }

  lemma GatesExactly(rule: Rule, c: Candidate, w: WhatIf, types: map<Uuid, Uuid>)
    ensures GatesOpen(rule, c, w) <==>
      && !Stops(rule, c, w, types, OtherScan) && !Stops(rule, c, w, types, ScopeOff)
      && !Stops(rule, c, w, types, SpikesOff) && !Stops(rule, c, w, types, DropsOff)
      && !Stops(rule, c, w, types, TooFewExpected) && !Stops(rule, c, w, types, TooSmallChange)
      && !Stops(rule, c, w, types, TooSmallPercent) && !Stops(rule, c, w, types, NoMovement)
  {
    if Counted(c) {
      ThresholdsExactly(rule, c, w);
    }
  }

  lemma GateExactly(rule: Rule, c: Candidate, w: WhatIf, types: map<Uuid, Uuid>)
    ensures RuleMatches(rule, c, w, types) <==> Passes(rule, c, w, types)
  {
    PassesAll(rule, c, w, types);
    FiltersExactly(rule, c, w, types);
    GatesExactly(rule, c, w, types);
  }

  // -------------------------------------------------------------------- clocks

  /** The two are rate-limited together: one scope and reference, and one scan unless the scope has none. */
  predicate SameClock(a: Candidate, b: Candidate) {
    && a.scope == b.scope && a.scopeRef == b.scopeRef
    && (a.scope == Metric || a.scope == Lifecycle || a.scan == b.scan)
  }

  lemma KeyIsClock(a: Candidate, b: Candidate)
    ensures KeyOf(a) == KeyOf(b) <==> SameClock(a, b)
  {
  }

  /** The cooldown in microseconds, negative if the setting is. */
  function Spacing(rule: Rule, w: WhatIf): int {
    (if w.cooldownMinutes == None then rule.cooldownMinutes else w.cooldownMinutes.value) * 60_000_000
  }

  lemma SpacingIsCooldown(rule: Rule, w: WhatIf)
    ensures Cooldown(rule, w) == if Spacing(rule, w) < 0 then 0 else Spacing(rule, w)
  {
  }

  // ---------------------------------------------------------------- main results

  /** Whatever fires is from the input, and nothing stops it. */
  lemma FiredPasses(rule: Rule, cs: seq<Candidate>, w: WhatIf, types: map<Uuid, Uuid>, c: Candidate)
    requires c in Firings(rule, cs, w, types)
    ensures c in cs && Passes(rule, c, w, types)
  {
    var k := KeyOf(c);
    OfKeyMembers(Firings(rule, cs, w, types), k, c);
    FiringsAreASchedule(rule, cs, w, types, k);
    assert c in multiset(OfKey(Firings(rule, cs, w, types), k));
    assert c in multiset(cs);
    GateExactly(rule, c, w, types);
  }

  /** What an operator can rely on for every firing. */
  lemma FiredRespectsRule(rule: Rule, cs: seq<Candidate>, w: WhatIf, types: map<Uuid, Uuid>, c: Candidate)
    requires c in Firings(rule, cs, w, types)
    ensures c.scope != Lifecycle ==>
              && (rule.scan == None || c.scan == rule.scan)
              && (c.direction == Spike ==> rule.notifyOnSpike)
              && (c.direction == Drop ==> rule.notifyOnDrop)
    ensures !ScopeSwitchedOff(rule.scopes, c.scope)
    ensures Counted(c) ==> !Below(c.actual - c.expected, rule.minAbsoluteDelta) && !Below(c.expected, Floor(rule, w))
    ensures forall f :: f in rule.filters ==> !Rejects(f, c, types)
  {
    FiredPasses(rule, cs, w, types, c);
    assert !Stops(rule, c, w, types, OtherScan) && !Stops(rule, c, w, types, ScopeOff);
    assert !Stops(rule, c, w, types, SpikesOff) && !Stops(rule, c, w, types, DropsOff);
    assert !Stops(rule, c, w, types, TooFewExpected) && !Stops(rule, c, w, types, TooSmallChange);
    forall f | f in rule.filters
      ensures !Rejects(f, c, types)
    {
      var i: nat :| i < |rule.filters| && rule.filters[i] == f;
      assert !Stops(rule, c, w, types, FilteredOut(i));
    }
  }

  /** A signal that nothing stops fires, or follows a firing on its own clock by less than the cooldown. */
  lemma PassingFiresOrCools(rule: Rule, cs: seq<Candidate>, w: WhatIf, types: map<Uuid, Uuid>, c: Candidate)
    requires c in cs && Passes(rule, c, w, types)
    ensures var fired := Firings(rule, cs, w, types);
            || c in fired
            || exists f :: f in fired && SameClock(f, c) && 0 <= c.bucket - f.bucket < Spacing(rule, w)
  {
    var fired := Firings(rule, cs, w, types);
    GateExactly(rule, c, w, types);
    SilencedOnlyByCooldown(rule, cs, w, types, c);
    SpacingIsCooldown(rule, w);
    if c !in fired {
      var f :| f in fired && KeyOf(f) == KeyOf(c) && 0 <= c.bucket - f.bucket < Cooldown(rule, w);
      KeyIsClock(f, c);
    }
  }

  /** Two entries of one key, in their order within the key. */
  lemma {:induction false} OfKeyIndices(cs: seq<Candidate>, k: Key, i: nat, j: nat) returns (m: nat, n: nat)
    requires i < j < |cs| && KeyOf(cs[i]) == k && KeyOf(cs[j]) == k
    ensures m < n < |OfKey(cs, k)| && OfKey(cs, k)[m] == cs[i] && OfKey(cs, k)[n] == cs[j]
    decreases |cs|
  {
    var rest := OfKey(cs[1..], k);
    assert OfKey(cs, k) == (if KeyOf(cs[0]) == k then [cs[0]] + rest else rest);
    if i == 0 {
      OfKeyMembers(cs[1..], k, cs[j]);
      assert cs[1..][j - 1] == cs[j];
      var p :| 0 <= p < |rest| && rest[p] == cs[j];
      m, n := 0, p + 1;
    } else {
      m, n := OfKeyIndices(cs[1..], k, i - 1, j - 1);
      if KeyOf(cs[0]) == k {
        m, n := m + 1, n + 1;
      }
    }
  }

  /** Two firings on one clock are at least the cooldown apart. */
  lemma FiringsAreApart(rule: Rule, cs: seq<Candidate>, w: WhatIf, types: map<Uuid, Uuid>, i: nat, j: nat)
    requires i < j < |Firings(rule, cs, w, types)|
    requires SameClock(Firings(rule, cs, w, types)[i], Firings(rule, cs, w, types)[j])
    ensures var a, b := Firings(rule, cs, w, types)[i], Firings(rule, cs, w, types)[j];
            b.bucket - a.bucket >= Spacing(rule, w) || a.bucket - b.bucket >= Spacing(rule, w)
  {
    var fired := Firings(rule, cs, w, types);
    var k := KeyOf(fired[i]);
    KeyIsClock(fired[i], fired[j]);
    SpacingIsCooldown(rule, w);
    FiringsAreASchedule(rule, cs, w, types, k);
    var m, n := OfKeyIndices(fired, k, i, j);
  }

  // --------------------------------------------------- what a switch leaves alone

  /** The signal passes both rules or neither. */
  ghost predicate SameGate(a: Rule, b: Rule, c: Candidate, w: WhatIf, types: map<Uuid, Uuid>) {
    RuleMatches(a, c, w, types) <==> RuleMatches(b, c, w, types)
  }

  lemma {:induction false} SameGateMatched(a: Rule, b: Rule, cs: seq<Candidate>, w: WhatIf, types: map<Uuid, Uuid>)
    requires forall c :: c in cs ==> SameGate(a, b, c, w, types)
    ensures Matched(a, cs, w, types) == Matched(b, cs, w, types)
    decreases |cs|
  {
    if cs != [] {
      assert SameGate(a, b, cs[0], w, types);
      SameGateMatched(a, b, cs[1..], w, types);
    }
  }

  /** Rules with one cooldown that the same signals of the input pass fire alike on it. */
  lemma SameGateSameFirings(a: Rule, b: Rule, cs: seq<Candidate>, w: WhatIf, types: map<Uuid, Uuid>)
    requires a.cooldownMinutes == b.cooldownMinutes
    requires forall c :: c in cs ==> SameGate(a, b, c, w, types)
    ensures Firings(a, cs, w, types) == Firings(b, cs, w, types)
  {
    SortSorts(cs);
    forall c | c in SortByBucket(cs)
      ensures c in cs
    {
      assert c in multiset(SortByBucket(cs));
    }
    SameGateMatched(a, b, SortByBucket(cs), w, types);
  }

  /** Two rules that the same obstacles stop the signal at. */
  ghost predicate SameObstacles(a: Rule, b: Rule, c: Candidate, w: WhatIf, types: map<Uuid, Uuid>) {
    forall why :: Stops(a, c, w, types, why) == Stops(b, c, w, types, why)
  }

  lemma SameObstaclesSameGate(a: Rule, b: Rule, c: Candidate, w: WhatIf, types: map<Uuid, Uuid>)
    requires SameObstacles(a, b, c, w, types)
    ensures SameGate(a, b, c, w, types)
  {
    GateExactly(a, c, w, types);
    GateExactly(b, c, w, types);
    if Passes(a, c, w, types) {
      assert forall why :: Stops(b, c, w, types, why) ==> Stops(a, c, w, types, why);
    }
    if Passes(b, c, w, types) {
      assert forall why :: Stops(a, c, w, types, why) ==> Stops(b, c, w, types, why);
    }
  }

  lemma SameObstaclesSameFirings(a: Rule, b: Rule, cs: seq<Candidate>, w: WhatIf, types: map<Uuid, Uuid>)
    requires a.cooldownMinutes == b.cooldownMinutes
    requires forall c :: c in cs ==> SameObstacles(a, b, c, w, types)
    ensures Firings(a, cs, w, types) == Firings(b, cs, w, types)
  {
    forall c | c in cs
      ensures SameGate(a, b, c, w, types)
    {
      SameObstaclesSameGate(a, b, c, w, types);
    }
    SameGateSameFirings(a, b, cs, w, types);
  }

  lemma OnlySpikes(rule: Rule, on: bool, c: Candidate, w: WhatIf, types: map<Uuid, Uuid>)
    requires c.direction != Spike || c.scope == Lifecycle
    ensures SameObstacles(rule.(notifyOnSpike := on), rule, c, w, types)
  {
  }

  lemma OnlyDrops(rule: Rule, on: bool, c: Candidate, w: WhatIf, types: map<Uuid, Uuid>)
    requires c.direction != Drop || c.scope == Lifecycle
    ensures SameObstacles(rule.(notifyOnDrop := on), rule, c, w, types)
  {
  }

  lemma OnlyOtherScans(rule: Rule, scan: Uuid, c: Candidate, w: WhatIf, types: map<Uuid, Uuid>)
    requires c.scan == Some(scan) || c.scope == Lifecycle
    ensures SameObstacles(rule.(scan := Some(scan)), rule.(scan := None), c, w, types)
  {
  }

  lemma OnlyCounts(rule: Rule, other: Rule, c: Candidate, w: WhatIf, types: map<Uuid, Uuid>)
    requires !Counted(c)
    requires other == rule.(minExpectedCount := other.minExpectedCount, minAbsoluteDelta := other.minAbsoluteDelta,
                            minPercentDelta := other.minPercentDelta)
    ensures SameObstacles(other, rule, c, w, types)
  {
  }

  /** The spike switch is about spikes that are not lifecycle findings, and about nothing else. */
  lemma SpikeSwitch(rule: Rule, on: bool, cs: seq<Candidate>, w: WhatIf, types: map<Uuid, Uuid>)
    requires forall c :: c in cs ==> c.direction != Spike || c.scope == Lifecycle
    ensures Firings(rule.(notifyOnSpike := on), cs, w, types) == Firings(rule, cs, w, types)
  {
    var other := rule.(notifyOnSpike := on);
    forall c | c in cs
      ensures SameObstacles(other, rule, c, w, types)
    {
      OnlySpikes(rule, on, c, w, types);
    }
    SameObstaclesSameFirings(other, rule, cs, w, types);
  }

  lemma DropSwitch(rule: Rule, on: bool, cs: seq<Candidate>, w: WhatIf, types: map<Uuid, Uuid>)
    requires forall c :: c in cs ==> c.direction != Drop || c.scope == Lifecycle
    ensures Firings(rule.(notifyOnDrop := on), cs, w, types) == Firings(rule, cs, w, types)
  {
    var other := rule.(notifyOnDrop := on);
    forall c | c in cs
      ensures SameObstacles(other, rule, c, w, types)
    {
      OnlyDrops(rule, on, c, w, types);
    }
    SameObstaclesSameFirings(other, rule, cs, w, types);
  }

  /** The switches with the one of a scope set. */
  function WithScope(on: Switches, scope: Scope, to: bool): Switches {
    match scope
    case ProjectTotal => on.(includeProjectTotal := to)
    case EventTypeScope => on.(includeEventTypes := to)
    case EventScope => on.(includeEvents := to)
    case SchemaScope => on.(includeSchemaDrifts := to)
    case Distribution => on.(includeDistributionDrifts := to)
    case ReleaseRegression => on.(includeReleaseRegressions := to)
    case Metric => on.(includeMetrics := to)
    case VariableValueDrift => on.(includeVariableValueDrifts := to)
    case SourceFreshness => on.(includeSourceFreshness := to)
    case Lifecycle => on.(includeLifecycle := to)
    case PropertyDrift => on.(includePropertyDrifts := to)
  }

  lemma OwnSwitch(on: Switches, scope: Scope, to: bool)
    ensures ScopeSwitchedOff(WithScope(on, scope, to), scope) == !to
  {
  }

  lemma OtherSwitch(on: Switches, scope: Scope, to: bool, other: Scope)
    requires other != scope
    ensures ScopeSwitchedOff(WithScope(on, scope, to), other) == ScopeSwitchedOff(on, other)
  {
    match scope
    case ProjectTotal =>
    case EventTypeScope =>
    case EventScope =>
    case SchemaScope =>
    case Distribution =>
    case ReleaseRegression =>
    case Metric =>
    case VariableValueDrift =>
    case SourceFreshness =>
    case Lifecycle =>
    case PropertyDrift =>
  }

  /** A scope switched off fires none of its signals. */
  lemma ScopeOffFiresNone(rule: Rule, scope: Scope, cs: seq<Candidate>, w: WhatIf, types: map<Uuid, Uuid>, c: Candidate)
    requires c in Firings(rule.(scopes := WithScope(rule.scopes, scope, false)), cs, w, types)
    ensures c.scope != scope
  {
    var off := rule.(scopes := WithScope(rule.scopes, scope, false));
    FiredPasses(off, cs, w, types, c);
    assert !Stops(off, c, w, types, ScopeOff);
    OwnSwitch(rule.scopes, scope, false);
  }

  lemma OnlyScopes(rule: Rule, on: Switches, c: Candidate, w: WhatIf, types: map<Uuid, Uuid>)
    requires ScopeSwitchedOff(on, c.scope) == ScopeSwitchedOff(rule.scopes, c.scope)
    ensures SameObstacles(rule.(scopes := on), rule, c, w, types)
  {
  }

  /** And no other signal notices the switch. */
  lemma ScopeSwitch(rule: Rule, scope: Scope, to: bool, cs: seq<Candidate>, w: WhatIf, types: map<Uuid, Uuid>)
    requires forall c :: c in cs ==> c.scope != scope
    ensures Firings(rule.(scopes := WithScope(rule.scopes, scope, to)), cs, w, types) == Firings(rule, cs, w, types)
  {
    var other := rule.(scopes := WithScope(rule.scopes, scope, to));
    forall c | c in cs
      ensures SameObstacles(other, rule, c, w, types)
    {
      OtherSwitch(rule.scopes, scope, to, c.scope);
      OnlyScopes(rule, other.scopes, c, w, types);
    }
    SameObstaclesSameFirings(other, rule, cs, w, types);
  }

  /** Binding a rule to a scan is about the signals of other scans, lifecycle findings excepted. */
  lemma ScanBinding(rule: Rule, scan: Uuid, cs: seq<Candidate>, w: WhatIf, types: map<Uuid, Uuid>)
    requires forall c :: c in cs ==> c.scan == Some(scan) || c.scope == Lifecycle
    ensures Firings(rule.(scan := Some(scan)), cs, w, types) == Firings(rule.(scan := None), cs, w, types)
  {
    var bound, free := rule.(scan := Some(scan)), rule.(scan := None);
    forall c | c in cs
      ensures SameObstacles(bound, free, c, w, types)
    {
      OnlyOtherScans(rule, scan, c, w, types);
    }
    SameObstaclesSameFirings(bound, free, cs, w, types);
  }

  /** The numeric thresholds are about counted signals. */
  lemma ThresholdsAreForCounts(rule: Rule, floor: real, delta: real, percent: real, cs: seq<Candidate>,
                               w: WhatIf, types: map<Uuid, Uuid>)
    requires forall c :: c in cs ==> !Counted(c)
    ensures Firings(rule.(minExpectedCount := floor, minAbsoluteDelta := delta, minPercentDelta := percent), cs, w, types)
         == Firings(rule, cs, w, types)
  {
    var other := rule.(minExpectedCount := floor, minAbsoluteDelta := delta, minPercentDelta := percent);
    forall c | c in cs
      ensures SameObstacles(other, rule, c, w, types)
    {
      OnlyCounts(rule, other, c, w, types);
    }
    SameObstaclesSameFirings(other, rule, cs, w, types);
  }

  lemma AddedFilterGate(rule: Rule, f: Filter, c: Candidate, w: WhatIf, types: map<Uuid, Uuid>)
    ensures RuleMatches(rule.(filters := rule.filters + [f]), c, w, types) <==>
              RuleMatches(rule, c, w, types) && !Rejects(f, c, types)
  {
    FilterExactly(f, c, types);
    FiltersSnoc(rule, f, c, types);
  }

  /** A filter lets none through that it rejects. */
  lemma FilteredFiresNone(rule: Rule, f: Filter, cs: seq<Candidate>, w: WhatIf, types: map<Uuid, Uuid>, c: Candidate)
    requires c in Firings(rule.(filters := rule.filters + [f]), cs, w, types)
    ensures !Rejects(f, c, types)
  {
    var more := rule.(filters := rule.filters + [f]);
    FiredPasses(more, cs, w, types, c);
    assert !Stops(more, c, w, types, FilteredOut(|rule.filters|));
  }

  /** And an input of which it rejects nothing fires as without it. */
  lemma AddedFilter(rule: Rule, f: Filter, cs: seq<Candidate>, w: WhatIf, types: map<Uuid, Uuid>)
    requires forall c :: c in cs ==> !Rejects(f, c, types)
    ensures Firings(rule.(filters := rule.filters + [f]), cs, w, types) == Firings(rule, cs, w, types)
  {
    var more := rule.(filters := rule.filters + [f]);
    forall c | c in cs
      ensures SameGate(more, rule, c, w, types)
    {
      AddedFilterGate(rule, f, c, w, types);
    }
    SameGateSameFirings(more, rule, cs, w, types);
  }

  lemma FiltersSnoc(rule: Rule, f: Filter, c: Candidate, types: map<Uuid, Uuid>)
    ensures FiltersMatch(rule.(filters := rule.filters + [f]), c, types) <==>
              FiltersMatch(rule, c, types) && FilterMatches(f, c, types)
  {
    var fs := rule.filters + [f];
    assert fs[|rule.filters|] == f;
    assert forall i :: 0 <= i < |rule.filters| ==> fs[i] == rule.filters[i];
  }

  // ------------------------------------------------------------------------ ties

  function OfBucket(cs: seq<Candidate>, t: int): seq<Candidate> {
    if cs == [] then [] else (if cs[0].bucket == t then [cs[0]] else []) + OfBucket(cs[1..], t)
  }

  /** Signals of one bucket are replayed in the order they came: on each clock the first of them fires. */
  lemma {:induction false} TiesKeepTheirOrder(cs: seq<Candidate>, t: int)
    ensures OfBucket(SortByBucket(cs), t) == OfBucket(cs, t)
    decreases |cs|
  {
    if cs != [] {
      SortSorts(cs[1..]);
      TiesKeepTheirOrder(cs[1..], t);
      InsertKeepsTies(cs[0], SortByBucket(cs[1..]), t);
    }
  }

  lemma OfBucketCons(c: Candidate, cs: seq<Candidate>, t: int)
    ensures OfBucket([c] + cs, t) == (if c.bucket == t then [c] else []) + OfBucket(cs, t)
  {
    assert ([c] + cs)[1..] == cs;
  }

  lemma {:induction false} InsertKeepsTies(c: Candidate, cs: seq<Candidate>, t: int)
    requires Sorted(cs)
    ensures OfBucket(Insert(c, cs), t) == (if c.bucket == t then [c] else []) + OfBucket(cs, t)
    decreases |cs|
  {
    if cs == [] || c.bucket <= cs[0].bucket {
      OfBucketCons(c, cs, t);
    } else {
      InsertKeepsTies(c, cs[1..], t);
      OfBucketCons(cs[0], Insert(c, cs[1..]), t);
      OfBucketCons(cs[0], cs[1..], t);
      assert cs == [cs[0]] + cs[1..];
    }
  }

  // --------------------------------------------------------------------- coverage

  /** The rule with everything open but the scope switches and the filters on event and event type. */
  function IdentityPart(rule: Rule): Rule {
    rule.(scan := None, notifyOnSpike := true, notifyOnDrop := true,
          minPercentDelta := 0.0, minAbsoluteDelta := 0.0, minExpectedCount := 0.0,
          filters := IdentityFilters(rule.filters))
  }

  function IdentityFilters(fs: seq<Filter>): seq<Filter> {
    if fs == [] then []
    else (if fs[0].field == EventField || fs[0].field == EventTypeField then [fs[0]] else []) + IdentityFilters(fs[1..])
  }

  /** An event-scope signal about the event, of the type, that went from nothing to one. */
  function SignalOf(event: Uuid, eventType: Uuid): Candidate {
    Candidate("", None, EventScope, event, Some(event), Some(eventType), 0, Spike, 1.0, 0.0)
  }

  lemma {:induction false} IdentityFiltersMember(fs: seq<Filter>, f: Filter)
    ensures f in IdentityFilters(fs) <==> f in fs && (f.field == EventField || f.field == EventTypeField)
    decreases |fs|
  {
    if fs != [] {
      IdentityFiltersMember(fs[1..], f);
      assert fs == [fs[0]] + fs[1..];
    }
  }

  /**
   Coverage is the gate with everything else open: an enabled rule covers an event exactly when a signal
   about it passes the rule's scope switches and its filters on event and event type.
   */
  lemma CoverageExactly(rule: Rule, event: Uuid, eventType: Uuid, types: map<Uuid, Uuid>)
    ensures RuleCoversEvent(rule, event, eventType) <==>
              && rule.enabled
              && Passes(IdentityPart(rule), SignalOf(event, eventType), WhatIf(None, None, None), types)
  {
    var open, c, none := IdentityPart(rule), SignalOf(event, eventType), WhatIf(None, None, None);
    GateExactly(open, c, none, types);
    forall f
      ensures f in open.filters <==> f in rule.filters && (f.field == EventField || f.field == EventTypeField)
      ensures f.field == EventField || f.field == EventTypeField ==>
                (FilterMatches(f, c, types) <==> IdentityFilterAdmits(f, event, eventType))
    {
      IdentityFiltersMember(rule.filters, f);
    }
    IdentityFiltersDecide(rule, open, c, event, eventType, types);
  }

  lemma IdentityFiltersDecide(rule: Rule, open: Rule, c: Candidate, event: Uuid, eventType: Uuid, types: map<Uuid, Uuid>)
    requires forall f :: f in open.filters <==> f in rule.filters && (f.field == EventField || f.field == EventTypeField)
    requires forall f: Filter :: f.field == EventField || f.field == EventTypeField ==>
               (FilterMatches(f, c, types) <==> IdentityFilterAdmits(f, event, eventType))
    ensures FiltersMatch(open, c, types) <==>
              forall i :: 0 <= i < |rule.filters| ==> IdentityFilterAdmits(rule.filters[i], event, eventType)
  {
    if FiltersMatch(open, c, types) {
      forall i | 0 <= i < |rule.filters|
        ensures IdentityFilterAdmits(rule.filters[i], event, eventType)
      {
        var f := rule.filters[i];
        if f.field == EventField || f.field == EventTypeField {
          assert f in open.filters;
          var j :| 0 <= j < |open.filters| && open.filters[j] == f;
          assert FilterMatches(open.filters[j], c, types);
        }
      }
    }
    if forall i :: 0 <= i < |rule.filters| ==> IdentityFilterAdmits(rule.filters[i], event, eventType) {
      forall j | 0 <= j < |open.filters|
        ensures FilterMatches(open.filters[j], c, types)
      {
        assert open.filters[j] in rule.filters;
        var i :| 0 <= i < |rule.filters| && rule.filters[i] == open.filters[j];
        assert IdentityFilterAdmits(rule.filters[i], event, eventType);
      }
    }
  }
}
