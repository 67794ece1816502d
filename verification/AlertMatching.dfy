/**
 Which signals an alert rule admits, and the in-memory replay that rate-limits them.

 Times are integers (microseconds since an epoch, in UTC), counts and percentages are reals.
 UUIDs appear as their canonical text, which is what filters compare against.
 */
module AlertMatching {
  import opened Wrappers

  type Uuid = string

  datatype Scope =
    | ProjectTotal | EventTypeScope | EventScope | SchemaScope | Distribution | ReleaseRegression
    | Metric | VariableValueDrift | SourceFreshness | Lifecycle | PropertyDrift

  datatype Direction = Spike | Drop | OtherDirection

  datatype Candidate = Candidate(
    id: Uuid, scan: Option<Uuid>, scope: Scope, scopeRef: string,
    event: Option<Uuid>, eventType: Option<Uuid>,
    bucket: int, direction: Direction, actual: real, expected: real)

  datatype Field = EventTypeField | EventField | DirectionField | MetricField | OtherField

  datatype Operator = Eq | In | Ne | NotIn | OtherOperator

  datatype Filter = Filter(field: Field, operator: Operator, values: set<string>)

  /** The rule's `include_...` columns. */
  datatype Switches = Switches(
    includeProjectTotal: bool, includeEventTypes: bool, includeEvents: bool,
    includeSchemaDrifts: bool, includeDistributionDrifts: bool, includeReleaseRegressions: bool,
    includeVariableValueDrifts: bool, includePropertyDrifts: bool, includeSourceFreshness: bool,
    includeLifecycle: bool, includeMetrics: bool)

  datatype Rule = Rule(
    enabled: bool, scan: Option<Uuid>, scopes: Switches,
    notifyOnSpike: bool, notifyOnDrop: bool,
    minPercentDelta: real, minAbsoluteDelta: real, minExpectedCount: real,
    cooldownMinutes: int, filters: seq<Filter>)

  /** The what-if overrides of a replay. */
  datatype WhatIf = WhatIf(cooldownMinutes: Option<int>, minPercentDelta: Option<real>, minExpectedCount: Option<real>)

  const MINUTE: int := 60_000_000

  // ----------------------------------------------------------------- matching

  function Abs(x: real): real {
    if x < 0.0 then -x else x
  }

  predicate IsProjectGlobalScope(scope: Scope) {
    scope.Metric? || scope.Lifecycle?
  }

  /** The candidate's own type, else the type of the event it is anchored on. */
  function ResolvedType(c: Candidate, types: map<Uuid, Uuid>): Option<Uuid> {
    if c.eventType.Some? then c.eventType
    else if c.event.Some? && c.event.value in types then Some(types[c.event.value])
    else None
  }

  function FieldOf(field: Field, c: Candidate, types: map<Uuid, Uuid>): Option<string> {
    match field
    case EventTypeField => ResolvedType(c, types)
    case EventField => c.event
    case DirectionField => Some(if c.direction.Spike? then "up" else "down")
    case MetricField => if c.scope.Metric? then Some(c.scopeRef) else None
    case OtherField => None
  }

  predicate Admits(f: Filter, actual: string) {
    match f.operator
    case Eq => actual in f.values
    case In => actual in f.values
    case Ne => actual !in f.values
    case NotIn => actual !in f.values
    case OtherOperator => true
  }

  /** A filter on a field the candidate does not carry lets it through. */
  predicate FilterMatches(f: Filter, c: Candidate, types: map<Uuid, Uuid>) {
    var actual := FieldOf(f.field, c, types);
    actual.None? || Admits(f, actual.value)
  }

  predicate FiltersMatch(rule: Rule, c: Candidate, types: map<Uuid, Uuid>) {
    forall i :: 0 <= i < |rule.filters| ==> FilterMatches(rule.filters[i], c, types)
  }

  predicate ScopeIncluded(on: Switches, scope: Scope) {
    match scope
    case ProjectTotal => on.includeProjectTotal
    case EventTypeScope => on.includeEventTypes
    case EventScope => on.includeEvents
    case SchemaScope => on.includeSchemaDrifts
    case Distribution => on.includeDistributionDrifts
    case ReleaseRegression => on.includeReleaseRegressions
    case Metric => on.includeMetrics
    case VariableValueDrift => on.includeVariableValueDrifts
    case SourceFreshness => on.includeSourceFreshness
    case Lifecycle => on.includeLifecycle
    case PropertyDrift => on.includePropertyDrifts
  }

  /** The scopes whose figures are not counts against a baseline: no numeric gate. */
  predicate SkipsThresholds(scope: Scope) {
    scope.SchemaScope? || scope.Distribution? || scope.ReleaseRegression?
    || scope.VariableValueDrift? || scope.PropertyDrift? || scope.SourceFreshness?
  }

  predicate ClearsThresholds(rule: Rule, c: Candidate, w: WhatIf) {
    var minExpected := w.minExpectedCount.GetOr(rule.minExpectedCount);
    var minPercent := w.minPercentDelta.GetOr(rule.minPercentDelta);
    var delta := Abs(c.actual - c.expected);
    && Abs(c.expected) >= minExpected
    && delta >= rule.minAbsoluteDelta
    && (if c.expected != 0.0 then delta / Abs(c.expected) * 100.0 >= minPercent else delta > 0.0)
  }

  /** Everything but the filters. */
  predicate GatesOpen(rule: Rule, c: Candidate, w: WhatIf) {
    && (rule.scan.None? || c.scan == rule.scan || c.scope.Lifecycle?)
    && ScopeIncluded(rule.scopes, c.scope)
    && (c.scope.Lifecycle?
        || (&& (c.direction.Spike? ==> rule.notifyOnSpike)
            && (c.direction.Drop? ==> rule.notifyOnDrop)
            && (SkipsThresholds(c.scope) || ClearsThresholds(rule, c, w))))
  }

  predicate RuleMatches(rule: Rule, c: Candidate, w: WhatIf, types: map<Uuid, Uuid>) {
    GatesOpen(rule, c, w) && FiltersMatch(rule, c, types)
  }

  // ----------------------------------------------------------------- coverage

  predicate IdentityFilterAdmits(f: Filter, event: Uuid, eventType: Uuid) {
    match f.field
    case EventField => Admits(f, event)
    case EventTypeField => Admits(f, eventType)
    case _ => true
  }

  predicate RuleCoversEvent(rule: Rule, event: Uuid, eventType: Uuid) {
    && rule.enabled && rule.scopes.includeEvents
    && forall i :: 0 <= i < |rule.filters| ==> IdentityFilterAdmits(rule.filters[i], event, eventType)
  }

  // ------------------------------------------------------------------- replay

  datatype Key = Key(scope: Scope, scopeRef: string, partition: Option<Uuid>)

  /** The clock a candidate is rate-limited on. */
  function KeyOf(c: Candidate): Key {
    Key(c.scope, c.scopeRef, if IsProjectGlobalScope(c.scope) then None else c.scan)
  }

  function Cooldown(rule: Rule, w: WhatIf): (r: nat) {
    var minutes := w.cooldownMinutes.GetOr(rule.cooldownMinutes);
    if minutes < 0 then 0 else minutes * MINUTE
  }

  ghost predicate Sorted(cs: seq<Candidate>) {
    forall i, j :: 0 <= i < j < |cs| ==> cs[i].bucket <= cs[j].bucket
  }

  /** Before the first candidate that is not earlier: folding from the right this is a stable sort. */
  function Insert(c: Candidate, cs: seq<Candidate>): seq<Candidate> {
    if cs == [] || c.bucket <= cs[0].bucket then [c] + cs
    else [cs[0]] + Insert(c, cs[1..])
  }

  /** `sorted(anomalies, key=bucket)`. */
  function SortByBucket(cs: seq<Candidate>): seq<Candidate> {
    if cs == [] then [] else Insert(cs[0], SortByBucket(cs[1..]))
  }

  function Matched(rule: Rule, cs: seq<Candidate>, w: WhatIf, types: map<Uuid, Uuid>): seq<Candidate> {
    if cs == [] then []
    else if RuleMatches(rule, cs[0], w, types) then [cs[0]] + Matched(rule, cs[1..], w, types)
    else Matched(rule, cs[1..], w, types)
  }

  predicate CoolingDown(c: Candidate, cooldown: int, last: map<Key, int>) {
    KeyOf(c) in last && c.bucket - last[KeyOf(c)] < cooldown
  }

  function Greedy(cs: seq<Candidate>, cooldown: int, last: map<Key, int>): seq<Candidate> {
    if cs == [] then []
    else if CoolingDown(cs[0], cooldown, last) then Greedy(cs[1..], cooldown, last)
    else [cs[0]] + Greedy(cs[1..], cooldown, last[KeyOf(cs[0]) := cs[0].bucket])
  }

  function Firings(rule: Rule, cs: seq<Candidate>, w: WhatIf, types: map<Uuid, Uuid>): seq<Candidate> {
    Greedy(Matched(rule, SortByBucket(cs), w, types), Cooldown(rule, w), map[])
  }

  /** The replay loop: one pass over the sorted candidates with the `last_fired_at` clocks. */
  method SimulateRuleFirings(rule: Rule, anomalies: seq<Candidate>, w: WhatIf, types: map<Uuid, Uuid>)
    returns (fired: seq<Candidate>)
    ensures fired == Firings(rule, anomalies, w, types)
  {
    var cooldown := Cooldown(rule, w);
    var ordered := SortByBucket(anomalies);
    fired := [];
    var lastFiredAt: map<Key, int> := map[];
    for i := 0 to |ordered|
      invariant fired + Greedy(Matched(rule, ordered[i..], w, types), cooldown, lastFiredAt)
             == Firings(rule, anomalies, w, types)
    {
      var c := ordered[i];
      ghost var rest := Matched(rule, ordered[i + 1..], w, types);
      assert ordered[i..] == [c] + ordered[i + 1..];
      MatchedCons(rule, c, ordered[i + 1..], w, types);
      if RuleMatches(rule, c, w, types) {
        GreedyCons(c, rest, cooldown, lastFiredAt);
        var key := KeyOf(c);
        if !(key in lastFiredAt && c.bucket - lastFiredAt[key] < cooldown) {
          Append(fired, c, Greedy(rest, cooldown, lastFiredAt[key := c.bucket]));
          fired := fired + [c];
          lastFiredAt := lastFiredAt[key := c.bucket];
        }
      }
    }
  }

  lemma GreedyCons(c: Candidate, cs: seq<Candidate>, cooldown: int, last: map<Key, int>)
    ensures Greedy([c] + cs, cooldown, last)
         == if CoolingDown(c, cooldown, last) then Greedy(cs, cooldown, last)
            else [c] + Greedy(cs, cooldown, last[KeyOf(c) := c.bucket])
  {
    assert ([c] + cs)[1..] == cs;
  }

  lemma Append(a: seq<Candidate>, c: Candidate, b: seq<Candidate>)
    ensures a + [c] + b == a + ([c] + b)
  {
  }

  // --------------------------------------------------------- sorting and selecting

  function OfKey(cs: seq<Candidate>, k: Key): seq<Candidate> {
    if cs == [] then []
    else if KeyOf(cs[0]) == k then [cs[0]] + OfKey(cs[1..], k)
    else OfKey(cs[1..], k)
  }

  lemma {:induction false} InsertMembers(c: Candidate, cs: seq<Candidate>, d: Candidate)
    ensures d in Insert(c, cs) <==> d == c || d in cs
    decreases |cs|
  {
    if cs != [] && c.bucket > cs[0].bucket {
      InsertMembers(c, cs[1..], d);
      assert cs == [cs[0]] + cs[1..];
    }
  }

  lemma {:induction false} InsertCounts(c: Candidate, cs: seq<Candidate>)
    ensures multiset(Insert(c, cs)) == multiset{c} + multiset(cs)
    decreases |cs|
  {
    if cs != [] && c.bucket > cs[0].bucket {
      InsertCounts(c, cs[1..]);
      assert cs == [cs[0]] + cs[1..];
    }
  }

  lemma {:induction false} InsertSorts(c: Candidate, cs: seq<Candidate>)
    requires Sorted(cs)
    ensures Sorted(Insert(c, cs))
    decreases |cs|
  {
    if cs != [] && c.bucket > cs[0].bucket {
      var rest := Insert(c, cs[1..]);
      InsertSorts(c, cs[1..]);
      forall i | 0 <= i < |rest|
        ensures cs[0].bucket <= rest[i].bucket
      {
        InsertMembers(c, cs[1..], rest[i]);
      }
    }
  }

  lemma {:induction false} SortSorts(cs: seq<Candidate>)
    ensures Sorted(SortByBucket(cs)) && multiset(SortByBucket(cs)) == multiset(cs)
    decreases |cs|
  {
    if cs != [] {
      SortSorts(cs[1..]);
      InsertSorts(cs[0], SortByBucket(cs[1..]));
      InsertCounts(cs[0], SortByBucket(cs[1..]));
      assert cs == [cs[0]] + cs[1..];
    }
  }

  lemma {:induction false} MatchedCounts(rule: Rule, cs: seq<Candidate>, w: WhatIf, types: map<Uuid, Uuid>, c: Candidate)
    ensures multiset(Matched(rule, cs, w, types))[c]
         == if RuleMatches(rule, c, w, types) then multiset(cs)[c] else 0
    decreases |cs|
  {
    if cs != [] {
      MatchedCounts(rule, cs[1..], w, types, c);
      assert cs == [cs[0]] + cs[1..];
    }
  }

  lemma {:induction false} MatchedSorted(rule: Rule, cs: seq<Candidate>, w: WhatIf, types: map<Uuid, Uuid>)
    requires Sorted(cs)
    ensures Sorted(Matched(rule, cs, w, types))
    decreases |cs|
  {
    if cs != [] {
      var rest := Matched(rule, cs[1..], w, types);
      MatchedSorted(rule, cs[1..], w, types);
      forall i | 0 <= i < |rest|
        ensures cs[0].bucket <= rest[i].bucket
      {
        MatchedCounts(rule, cs[1..], w, types, rest[i]);
        assert rest[i] in multiset(rest);
        assert rest[i] in cs[1..];
      }
    }
  }

  lemma {:induction false} OfKeyCounts(cs: seq<Candidate>, k: Key, c: Candidate)
    ensures multiset(OfKey(cs, k))[c] == if KeyOf(c) == k then multiset(cs)[c] else 0
    decreases |cs|
  {
    if cs != [] {
      OfKeyCounts(cs[1..], k, c);
      assert cs == [cs[0]] + cs[1..];
    }
  }

  lemma {:induction false} OfKeyMembers(cs: seq<Candidate>, k: Key, c: Candidate)
    ensures c in OfKey(cs, k) <==> c in cs && KeyOf(c) == k
  {
    OfKeyCounts(cs, k, c);
    assert c in OfKey(cs, k) <==> c in multiset(OfKey(cs, k));
    assert c in cs <==> c in multiset(cs);
  }

  lemma {:induction false} OfKeySorted(cs: seq<Candidate>, k: Key)
    requires Sorted(cs)
    ensures Sorted(OfKey(cs, k))
    decreases |cs|
  {
    if cs != [] {
      var rest := OfKey(cs[1..], k);
      OfKeySorted(cs[1..], k);
      forall i | 0 <= i < |rest|
        ensures cs[0].bucket <= rest[i].bucket
      {
        OfKeyMembers(cs[1..], k, rest[i]);
      }
    }
  }

  lemma OfKeyCons(c: Candidate, cs: seq<Candidate>, k: Key)
    ensures OfKey([c] + cs, k) == if KeyOf(c) == k then [c] + OfKey(cs, k) else OfKey(cs, k)
  {
    assert ([c] + cs)[1..] == cs;
  }

  lemma MatchedCons(rule: Rule, c: Candidate, cs: seq<Candidate>, w: WhatIf, types: map<Uuid, Uuid>)
    ensures Matched(rule, [c] + cs, w, types)
         == if RuleMatches(rule, c, w, types) then [c] + Matched(rule, cs, w, types) else Matched(rule, cs, w, types)
  {
    assert ([c] + cs)[1..] == cs;
  }

  lemma {:induction false} MatchedKeepsKey(rule: Rule, cs: seq<Candidate>, w: WhatIf, types: map<Uuid, Uuid>, k: Key)
    ensures OfKey(Matched(rule, cs, w, types), k) == Matched(rule, OfKey(cs, k), w, types)
    decreases |cs|
  {
    if cs != [] {
      MatchedKeepsKey(rule, cs[1..], w, types, k);
      OfKeyCons(cs[0], Matched(rule, cs[1..], w, types), k);
      MatchedCons(rule, cs[0], OfKey(cs[1..], k), w, types);
    }
  }

  lemma InsertBeforeAll(c: Candidate, cs: seq<Candidate>)
    requires forall i :: 0 <= i < |cs| ==> c.bucket <= cs[i].bucket
    ensures Insert(c, cs) == [c] + cs
  {
  }

  lemma InsertCons(c: Candidate, d: Candidate, cs: seq<Candidate>)
    requires c.bucket > d.bucket
    ensures Insert(c, [d] + cs) == [d] + Insert(c, cs)
  {
    assert ([d] + cs)[1..] == cs;
  }

  lemma {:induction false} InsertKeepsKey(c: Candidate, cs: seq<Candidate>, k: Key)
    requires Sorted(cs)
    ensures OfKey(Insert(c, cs), k) == if KeyOf(c) == k then Insert(c, OfKey(cs, k)) else OfKey(cs, k)
    decreases |cs|
  {
    if cs == [] || c.bucket <= cs[0].bucket {
      OfKeyCons(c, cs, k);
      var own := OfKey(cs, k);
      forall i | 0 <= i < |own|
        ensures c.bucket <= own[i].bucket
      {
        OfKeyMembers(cs, k, own[i]);
      }
      InsertBeforeAll(c, own);
    } else {
      InsertKeepsKey(c, cs[1..], k);
      OfKeyCons(cs[0], Insert(c, cs[1..]), k);
      InsertCons(c, cs[0], OfKey(cs[1..], k));
    }
  }

  lemma {:induction false} SortKeepsKey(cs: seq<Candidate>, k: Key)
    ensures OfKey(SortByBucket(cs), k) == SortByBucket(OfKey(cs, k))
    decreases |cs|
  {
    if cs != [] {
      var tail := OfKey(cs[1..], k);
      SortSorts(cs[1..]);
      SortKeepsKey(cs[1..], k);
      InsertKeepsKey(cs[0], SortByBucket(cs[1..]), k);
      assert ([cs[0]] + tail)[1..] == tail;
    }
  }

  lemma {:induction false} GreedyKeepsKey(cs: seq<Candidate>, cooldown: int, last: map<Key, int>, other: map<Key, int>, k: Key)
    requires k in last <==> k in other
    requires k in last ==> last[k] == other[k]
    ensures OfKey(Greedy(cs, cooldown, last), k) == Greedy(OfKey(cs, k), cooldown, other)
    decreases |cs|
  {
    if cs != [] {
      var c, tail := cs[0], OfKey(cs[1..], k);
      assert ([c] + tail)[1..] == tail;
      if CoolingDown(c, cooldown, last) {
        GreedyKeepsKey(cs[1..], cooldown, last, other, k);
      } else {
        var next := last[KeyOf(c) := c.bucket];
        var fired := Greedy(cs[1..], cooldown, next);
        assert ([c] + fired)[1..] == fired;
        if KeyOf(c) == k {
          GreedyKeepsKey(cs[1..], cooldown, next, other[k := c.bucket], k);
        } else {
          GreedyKeepsKey(cs[1..], cooldown, next, other, k);
        }
      }
    }
  }

  /**
   Partitions are independent: replaying one key's candidates alone gives exactly that key's
   firings in the whole replay.
   */
  lemma PartitionsAreIndependent(rule: Rule, cs: seq<Candidate>, w: WhatIf, types: map<Uuid, Uuid>, k: Key)
    ensures OfKey(Firings(rule, cs, w, types), k) == Firings(rule, OfKey(cs, k), w, types)
  {
    GreedyKeepsKey(Matched(rule, SortByBucket(cs), w, types), Cooldown(rule, w), map[], map[], k);
    MatchedKeepsKey(rule, SortByBucket(cs), w, types, k);
    SortKeepsKey(cs, k);
  }

  // ----------------------------------------------------------- greedy is optimal

  /** Any two of the candidates are at least the cooldown apart. */
  ghost predicate Apart(cs: seq<Candidate>, cooldown: int) {
    forall i, j :: 0 <= i < j < |cs| ==>
      cs[i].bucket - cs[j].bucket >= cooldown || cs[j].bucket - cs[i].bucket >= cooldown
  }

  /** In time order and each at least the cooldown after the one before it. */
  ghost predicate Spaced(cs: seq<Candidate>, cooldown: int) {
    forall i, j :: 0 <= i < j < |cs| ==> cs[j].bucket - cs[i].bucket >= cooldown
  }

  lemma {:induction false} InsertKeepsApart(c: Candidate, cs: seq<Candidate>, cooldown: nat)
    requires Sorted(cs) && Spaced(cs, cooldown)
    requires forall i :: 0 <= i < |cs| ==>
      c.bucket - cs[i].bucket >= cooldown || cs[i].bucket - c.bucket >= cooldown
    ensures Spaced(Insert(c, cs), cooldown)
    decreases |cs|
  {
    if cs != [] && c.bucket > cs[0].bucket {
      var rest := Insert(c, cs[1..]);
      InsertKeepsApart(c, cs[1..], cooldown);
      forall i | 0 <= i < |rest|
        ensures rest[i].bucket - cs[0].bucket >= cooldown
      {
        InsertMembers(c, cs[1..], rest[i]);
      }
    }
  }

  lemma {:induction false} ApartSortsSpaced(cs: seq<Candidate>, cooldown: nat)
    requires Apart(cs, cooldown)
    ensures Spaced(SortByBucket(cs), cooldown)
    decreases |cs|
  {
    if cs != [] {
      ApartSortsSpaced(cs[1..], cooldown);
      SortSorts(cs[1..]);
      var rest := SortByBucket(cs[1..]);
      forall i | 0 <= i < |rest|
        ensures cs[0].bucket - rest[i].bucket >= cooldown || rest[i].bucket - cs[0].bucket >= cooldown
      {
        assert rest[i] in multiset(rest);
        assert rest[i] in cs[1..];
      }
      InsertKeepsApart(cs[0], rest, cooldown);
    }
  }

  /**
   Greedy stays ahead. All candidates have one key; `from` is the earliest time the next firing is
   allowed. No spaced choice of candidates not before `from` outnumbers the greedy one.
   */
  lemma {:induction false} GreedyStaysAhead(cs: seq<Candidate>, cooldown: nat, last: map<Key, int>, k: Key, s: seq<Candidate>)
    requires cooldown > 0
    requires Sorted(cs) && forall i :: 0 <= i < |cs| ==> KeyOf(cs[i]) == k
    requires Spaced(s, cooldown)
    requires forall i :: 0 <= i < |s| ==> s[i] in cs
    requires forall i :: 0 <= i < |s| && k in last ==> s[i].bucket - last[k] >= cooldown
    ensures |s| <= |Greedy(cs, cooldown, last)|
    decreases |cs|
  {
    if s != [] {
      assert s[0] in cs;
      var c, rest := cs[0], cs[1..];
      assert cs == [c] + rest;
      if CoolingDown(c, cooldown, last) {
        GreedyStaysAhead(rest, cooldown, last, k, s);
      } else {
        assert c.bucket <= s[0].bucket;
        forall i | 0 <= i < |s[1..]|
          ensures s[1..][i] in rest && s[1..][i].bucket - c.bucket >= cooldown
        {
          assert s[i + 1].bucket - s[0].bucket >= cooldown;
          assert s[i + 1] in cs;
        }
        GreedyStaysAhead(rest, cooldown, last[k := c.bucket], k, s[1..]);
      }
    }
  }

  lemma {:induction false} NoCooldownFiresAll(cs: seq<Candidate>, last: map<Key, int>)
    requires Sorted(cs)
    requires forall i, k :: 0 <= i < |cs| && k in last ==> last[k] <= cs[i].bucket
    ensures Greedy(cs, 0, last) == cs
    decreases |cs|
  {
    if cs != [] {
      assert cs == [cs[0]] + cs[1..];
      NoCooldownFiresAll(cs[1..], last[KeyOf(cs[0]) := cs[0].bucket]);
    }
  }

  lemma SubMultisetSize(a: multiset<Candidate>, b: multiset<Candidate>)
    requires a <= b
    ensures |a| <= |b|
  {
    assert b == a + (b - a);
  }

  /** A schedule for key `k`: some of the candidates, each matched, pairwise the cooldown apart. */
  ghost predicate Schedule(rule: Rule, cs: seq<Candidate>, w: WhatIf, types: map<Uuid, Uuid>, k: Key, s: seq<Candidate>) {
    && multiset(s) <= multiset(cs)
    && (forall i :: 0 <= i < |s| ==> KeyOf(s[i]) == k && RuleMatches(rule, s[i], w, types))
    && Apart(s, Cooldown(rule, w))
  }

  /** The matched candidates of one key, in bucket order: what its clock sees. */
  function Stream(rule: Rule, cs: seq<Candidate>, w: WhatIf, types: map<Uuid, Uuid>, k: Key): seq<Candidate> {
    Matched(rule, SortByBucket(OfKey(cs, k)), w, types)
  }

  lemma StreamFacts(rule: Rule, cs: seq<Candidate>, w: WhatIf, types: map<Uuid, Uuid>, k: Key)
    ensures Sorted(Stream(rule, cs, w, types, k))
    ensures forall c :: multiset(Stream(rule, cs, w, types, k))[c]
                     == if KeyOf(c) == k && RuleMatches(rule, c, w, types) then multiset(cs)[c] else 0
    ensures forall i :: 0 <= i < |Stream(rule, cs, w, types, k)| ==> KeyOf(Stream(rule, cs, w, types, k)[i]) == k
  {
    var own := SortByBucket(OfKey(cs, k));
    var stream := Stream(rule, cs, w, types, k);
    SortSorts(OfKey(cs, k));
    MatchedSorted(rule, own, w, types);
    forall c
      ensures multiset(stream)[c] == if KeyOf(c) == k && RuleMatches(rule, c, w, types) then multiset(cs)[c] else 0
    {
      MatchedCounts(rule, own, w, types, c);
      OfKeyCounts(cs, k, c);
    }
    forall i | 0 <= i < |stream|
      ensures KeyOf(stream[i]) == k
    {
      assert stream[i] in multiset(stream);
    }
  }

  /** The replay is optimal: no schedule for a key has more firings than the replay gives it. */
  lemma ReplayIsOptimal(rule: Rule, cs: seq<Candidate>, w: WhatIf, types: map<Uuid, Uuid>, k: Key, s: seq<Candidate>)
    requires Schedule(rule, cs, w, types, k, s)
    ensures |s| <= |OfKey(Firings(rule, cs, w, types), k)|
  {
    PartitionsAreIndependent(rule, cs, w, types, k);
    StreamFacts(rule, cs, w, types, k);
    var stream, cooldown := Stream(rule, cs, w, types, k), Cooldown(rule, w);
    forall c
      ensures multiset(s)[c] <= multiset(stream)[c]
    {
      if c in multiset(s) {
        assert c in s;
      }
    }
    if cooldown == 0 {
      NoCooldownFiresAll(stream, map[]);
      SubMultisetSize(multiset(s), multiset(stream));
    } else {
      var ordered := SortByBucket(s);
      SortSorts(s);
      ApartSortsSpaced(s, cooldown);
      assert |multiset(ordered)| == |multiset(s)|;
      forall i | 0 <= i < |ordered|
        ensures ordered[i] in stream
      {
        assert ordered[i] in multiset(ordered);
        assert ordered[i] in multiset(stream);
      }
      GreedyStaysAhead(stream, cooldown, map[], k, ordered);
    }
  }

  // ------------------------------------------------------ the firings are a schedule

  lemma {:induction false} GreedySpaced(cs: seq<Candidate>, cooldown: nat, last: map<Key, int>, k: Key)
    requires Sorted(cs) && forall i :: 0 <= i < |cs| ==> KeyOf(cs[i]) == k
    ensures Spaced(Greedy(cs, cooldown, last), cooldown)
    ensures forall i :: 0 <= i < |Greedy(cs, cooldown, last)| && k in last ==>
      Greedy(cs, cooldown, last)[i].bucket - last[k] >= cooldown
    decreases |cs|
  {
    if cs != [] {
      var c, rest := cs[0], cs[1..];
      if CoolingDown(c, cooldown, last) {
        GreedySpaced(rest, cooldown, last, k);
      } else {
        var fired := Greedy(rest, cooldown, last[k := c.bucket]);
        GreedySpaced(rest, cooldown, last[k := c.bucket], k);
        assert forall i :: 0 <= i < |fired| ==> fired[i].bucket - c.bucket >= cooldown;
      }
    }
  }

  lemma {:induction false} GreedySelects(cs: seq<Candidate>, cooldown: nat, last: map<Key, int>)
    ensures multiset(Greedy(cs, cooldown, last)) <= multiset(cs)
    decreases |cs|
  {
    if cs != [] {
      var c, rest := cs[0], cs[1..];
      assert cs == [c] + rest;
      if CoolingDown(c, cooldown, last) {
        GreedySelects(rest, cooldown, last);
      } else {
        GreedySelects(rest, cooldown, last[KeyOf(c) := c.bucket]);
      }
    }
  }

  /** The replay's own firings of a key are a schedule: together with optimality, a best one. */
  lemma FiringsAreASchedule(rule: Rule, cs: seq<Candidate>, w: WhatIf, types: map<Uuid, Uuid>, k: Key)
    ensures Schedule(rule, cs, w, types, k, OfKey(Firings(rule, cs, w, types), k))
  {
    PartitionsAreIndependent(rule, cs, w, types, k);
    StreamFacts(rule, cs, w, types, k);
    var stream, cooldown := Stream(rule, cs, w, types, k), Cooldown(rule, w);
    var fired := Greedy(stream, cooldown, map[]);
    GreedySpaced(stream, cooldown, map[], k);
    GreedySelects(stream, cooldown, map[]);
    forall i | 0 <= i < |fired|
      ensures KeyOf(fired[i]) == k && RuleMatches(rule, fired[i], w, types)
    {
      assert fired[i] in multiset(fired);
      assert fired[i] in multiset(stream);
    }
    forall c
      ensures multiset(fired)[c] <= multiset(cs)[c]
    {
      assert multiset(fired)[c] <= multiset(stream)[c];
    }
  }

  lemma {:induction false} GreedyDominates(cs: seq<Candidate>, cooldown: nat, last: map<Key, int>, c: Candidate)
    requires Sorted(cs) && c in cs
    requires forall i, k :: 0 <= i < |cs| && k in last ==> last[k] <= cs[i].bucket
    ensures || c in Greedy(cs, cooldown, last)
            || CoolingDown(c, cooldown, last)
            || exists f :: f in Greedy(cs, cooldown, last) && KeyOf(f) == KeyOf(c)
                 && 0 <= c.bucket - f.bucket < cooldown
    decreases |cs|
  {
    var d, rest := cs[0], cs[1..];
    assert cs == [d] + rest;
    if c == d {
    } else if CoolingDown(d, cooldown, last) {
      GreedyDominates(rest, cooldown, last, c);
    } else {
      var next := last[KeyOf(d) := d.bucket];
      GreedyDominates(rest, cooldown, next, c);
      assert d in Greedy(cs, cooldown, last);
      if CoolingDown(c, cooldown, next) && KeyOf(c) == KeyOf(d) {
        assert 0 <= c.bucket - d.bucket < cooldown;
      }
    }
  }

  /** A matched candidate that does not fire follows a firing of its own key by less than the cooldown. */
  lemma SilencedOnlyByCooldown(rule: Rule, cs: seq<Candidate>, w: WhatIf, types: map<Uuid, Uuid>, c: Candidate)
    requires c in cs && RuleMatches(rule, c, w, types)
    ensures var fired := Firings(rule, cs, w, types);
            || c in fired
            || exists f :: f in fired && KeyOf(f) == KeyOf(c) && 0 <= c.bucket - f.bucket < Cooldown(rule, w)
  {
    var ordered := SortByBucket(cs);
    SortSorts(cs);
    assert c in multiset(cs);
    MatchedCounts(rule, ordered, w, types, c);
    MatchedSorted(rule, ordered, w, types);
    assert c in multiset(Matched(rule, ordered, w, types));
    GreedyDominates(Matched(rule, ordered, w, types), Cooldown(rule, w), map[], c);
  }
}
